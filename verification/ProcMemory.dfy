/** The memory of all processes together: growproc, fork and exit over the page tables of vm.c
    and one free list, in any order. */
module ProcMemory {
  import opened AddressSpace
  import opened FrameCount
  import opened PageTable
  import opened Params

  const INT_LIMIT := 0x8000_0000

  /** No user page past the size is mapped. */
  ghost predicate Trim(mem: Memory, pgdir: nat, sz: nat) {
    forall v: nat :: PagesFor(sz) <= v < USER_PAGES ==> !Present(Lookup(mem, pgdir, v))
  }

  /** Every page below the size is mapped. */
  ghost predicate Full(mem: Memory, pgdir: nat, sz: nat) {
    forall v: nat :: v < PagesFor(sz) ==> Present(Lookup(mem, pgdir, v))
  }

  /** The process has a size but no first page. */
  ghost predicate Hollow(mem: Memory, pgdir: nat, sz: nat) {
    sz > 0 && !Present(Lookup(mem, pgdir, 0))
  }

  /** The size stays below KERNBASE, and there are frames for the new pages and for the tables
      that they still need. */
  ghost predicate CanGrow(mem: Memory, free: nat, pgdir: nat, sz: nat, n: nat) {
    && sz + n < USER_PAGES * PGSIZE
    && free >= FramesToMap(Tabs(mem, pgdir), PagesFor(sz), PagesFor(sz + n))
  }

  lemma GrowNeeds(mem: Memory, pgdir: nat, sz: nat, n: nat)
    requires Trim(mem, pgdir, sz) && sz + n < USER_PAGES * PGSIZE
    ensures var lo, hi := PagesFor(sz), PagesFor(sz + n);
      && lo <= hi && FirstMapped(mem, pgdir, lo, hi) == hi
      && AllocFrames(mem, pgdir, lo, hi) == FramesToMap(Tabs(mem, pgdir), lo, hi)
  {
    hide Lookup, Tabs, FramesToMap;
    PagesGrow(sz, sz + n);
  }

  /** growproc; false is -1.  It grows exactly when it can.  Shrinking to nothing is reported as
      a failure after the pages are gone and leaves the old size, so a failed call keeps all
      pages below the size exactly when it was asked to grow, or there were none. */
  method Growproc(vm: Vm, pgdir: nat, sz: nat, n: int, ghost owner: map<nat, Slot>)
      returns (ok: bool, sz': nat, ghost owner': map<nat, Slot>)
    requires vm.Ok(pgdir, owner) && sz <= USER_PAGES * PGSIZE && Trim(vm.mem, pgdir, sz) && -INT_LIMIT <= n < INT_LIMIT
    modifies vm
    ensures vm.Ok(pgdir, owner') && Kept(old(vm.mem), old(vm.freelist), owner, vm.mem, vm.freelist, owner')
    ensures Trim(vm.mem, pgdir, sz') && sz' <= USER_PAGES * PGSIZE
    ensures sz' == if ok && sz + n >= 0 then sz + n else sz
    ensures n <= 0 ==> (ok <==> n == 0 || (sz > 0 && sz + n != 0))
    ensures n > 0 ==> (ok <==> CanGrow(old(vm.mem), |old(vm.freelist)|, pgdir, sz, n))
    ensures ok && n > 0 ==> forall v: nat :: PagesFor(sz) <= v < PagesFor(sz + n) ==> ZeroedPage(vm.mem, pgdir, v)
    ensures ok ==> forall v: nat :: v < PagesFor(sz) && v < PagesFor(sz') ==>
      Lookup(vm.mem, pgdir, v) == Lookup(old(vm.mem), pgdir, v)
    ensures ok && Full(old(vm.mem), pgdir, sz) ==> Full(vm.mem, pgdir, sz')
    ensures !ok && Full(old(vm.mem), pgdir, sz) ==> (Full(vm.mem, pgdir, sz') <==> n > 0 || sz == 0)
    ensures !ok && n <= 0 && sz > 0 ==> Hollow(vm.mem, pgdir, sz')
    ensures Hollow(old(vm.mem), pgdir, sz) ==> Hollow(vm.mem, pgdir, sz')
  {
    hide Space, Pool, Kept, Lookup, PagesKept, Dropped, Tabs, FramesToMap, FirstMapped, AllocFrames;
    owner', sz' := owner, sz;
    NoChange(vm.mem, vm.freelist, owner);
    if n > 0 {
      if sz + n < USER_PAGES * PGSIZE {
        GrowNeeds(vm.mem, pgdir, sz, n);
      }
      var r;
      r, owner' := vm.Allocuvm(pgdir, sz, sz + n, owner);
      PagesGrow(sz, sz + n);
      if !r.Sized? {
        return false, sz, owner';
      }
      sz' := r.sz;
      forall v: nat | PagesFor(sz) <= v < PagesFor(sz') ensures Present(Lookup(vm.mem, pgdir, v)) {
        assert ZeroedPage(vm.mem, pgdir, v);
      }
      StillFull(old(vm.mem), vm.mem, pgdir, sz, sz');
    } else if n < 0 {
      var newsz := if sz + n >= 0 then sz + n else sz + n + UINT_LIMIT;
      var r;
      r, owner' := vm.Deallocuvm(pgdir, sz, newsz, owner);
      PagesGrow(newsz, sz);
      if r == 0 {
        NothingLeft(old(vm.mem), vm.mem, pgdir, sz, newsz);
        return false, sz, owner';
      }
      sz' := r;
      StillFull(old(vm.mem), vm.mem, pgdir, sz, sz');
    }
    return true, sz', owner';
  }

  lemma StillFull(m0: Memory, mem: Memory, pgdir: nat, sz: nat, sz': nat)
    requires PagesFor(sz') <= USER_PAGES
    requires forall v: nat :: v < PagesFor(sz') ==>
      if v < PagesFor(sz) then Lookup(mem, pgdir, v) == Lookup(m0, pgdir, v) else Present(Lookup(mem, pgdir, v))
    ensures Full(m0, pgdir, sz) ==> Full(mem, pgdir, sz')
  {
  }

  lemma NothingLeft(m0: Memory, mem: Memory, pgdir: nat, sz: nat, newsz: nat)
    requires PagesFor(sz) <= USER_PAGES && (sz > 0 ==> newsz == 0)
    requires forall v: nat :: v < NENTRIES * NENTRIES ==>
      Lookup(mem, pgdir, v) == After(m0, pgdir, PagesFor(newsz), PagesFor(sz), v)
    ensures (Full(mem, pgdir, sz) <==> sz == 0) && (sz > 0 ==> Hollow(mem, pgdir, sz))
  {
    PagesGrow(0, sz);
    if sz > 0 {
      assert !Present(Lookup(mem, pgdir, 0));
    }
  }

  lemma PagesGrow(a: nat, b: nat)
    ensures a <= b ==> PagesFor(a) <= PagesFor(b)
    ensures b <= USER_PAGES * PGSIZE ==> PagesFor(b) <= USER_PAGES
    ensures b > 0 ==> PagesFor(b) > 0
    ensures a == 0 ==> PagesFor(a) == 0
  {
  }

  // All processes

  datatype Proc = Proc(pgdir: nat, sz: nat)

  datatype Op = Spawn | Grow(i: nat, n: int) | Fork(i: nat) | Reap(i: nat)

  ghost predicate Member(mem: Memory, freelist: seq<nat>, p: Proc, owner: map<nat, Slot>, first: nat, limit: nat) {
    && Space(mem, p.pgdir, owner) && Pool(mem, freelist, owner, first, limit)
    && p.sz <= USER_PAGES * PGSIZE && Trim(mem, p.pgdir, p.sz)
  }

  ghost predicate Apart(a: map<nat, Slot>, b: map<nat, Slot>) {
    forall f :: f in a ==> f !in b
  }

  /** Every process but i has its own sound address space; i is between two of them. */
  ghost predicate FamilyBut(mem: Memory, freelist: seq<nat>, procs: seq<Proc>, owners: seq<map<nat, Slot>>, i: nat,
                            first: nat, limit: nat)
  {
    && |procs| == |owners| && Pool(mem, freelist, map[], first, limit)
    && (forall j: nat :: j < |procs| && j != i ==> Member(mem, freelist, procs[j], owners[j], first, limit))
    && (forall j: nat, k: nat :: j < |procs| && k < |procs| && j != k ==> Apart(owners[j], owners[k]))
  }

  /** The frames, free or owned by some process. */
  ghost predicate Conserved(freelist: seq<nat>, owners: seq<map<nat, Slot>>, frames: set<nat>) {
    && (forall f :: f in freelist ==> f in frames)
    && (forall i: nat, f :: i < |owners| && f in owners[i] ==> f in frames)
    && (forall f :: f in frames ==> f in freelist || exists i: nat :: i < |owners| && f in owners[i])
  }

  /** h says of a process that it lost its pages to a shrink to nothing; if not, it has all. */
  ghost predicate Marked(mem: Memory, p: Proc, h: bool) {
    if h then Hollow(mem, p.pgdir, p.sz) else Full(mem, p.pgdir, p.sz)
  }

  ghost predicate AllMarked(mem: Memory, procs: seq<Proc>, hollow: seq<bool>) {
    |hollow| == |procs| && forall j: nat :: j < |procs| ==> Marked(mem, procs[j], hollow[j])
  }

  /** One process moves frames between the free list and its holdings; nobody else notices. */
  lemma FamilyStep(m0: Memory, l0: seq<nat>, procs: seq<Proc>, owners: seq<map<nat, Slot>>, i: nat, frames: set<nat>,
                   mem: Memory, freelist: seq<nat>, o: map<nat, Slot>, first: nat, limit: nat)
    requires FamilyBut(m0, l0, procs, owners, i, first, limit) && i < |owners| && Conserved(l0, owners, frames)
    requires Kept(m0, l0, owners[i], mem, freelist, o) && Pool(mem, freelist, o, first, limit)
    ensures FamilyBut(mem, freelist, procs, owners[i := o], i, first, limit)
    ensures Conserved(freelist, owners[i := o], frames)
    ensures forall j: nat, h: bool :: j < |procs| && j != i && Marked(m0, procs[j], h) ==> Marked(mem, procs[j], h)
  {
    hide Space, Pool, Kept, Lookup;
    PoolForget(mem, freelist, o, first, limit);
    forall j: nat | j < |procs| && j != i
      ensures Member(mem, freelist, procs[j], owners[j], first, limit) && Apart(o, owners[j]) && Apart(owners[j], o)
      ensures forall h: bool :: Marked(m0, procs[j], h) ==> Marked(mem, procs[j], h)
    {
      assert Apart(owners[i], owners[j]);
      PagesGrow(0, procs[j].sz);
      Isolated(m0, l0, owners[i], mem, freelist, o, procs[j].pgdir, owners[j], first, limit);
    }
    StepConserved(m0, l0, owners, i, frames, mem, freelist, o);
  }

  lemma StepConserved(m0: Memory, l0: seq<nat>, owners: seq<map<nat, Slot>>, i: nat, frames: set<nat>,
                      mem: Memory, freelist: seq<nat>, o: map<nat, Slot>)
    requires i < |owners| && Conserved(l0, owners, frames) && Kept(m0, l0, owners[i], mem, freelist, o)
    ensures Conserved(freelist, owners[i := o], frames)
  {
    var owners' := owners[i := o];
    forall f | f in freelist || f in o ensures f in frames {
      assert f in Holdings(freelist, o);
      assert f in Holdings(l0, owners[i]);
    }
    forall f | f in frames ensures f in freelist || exists k: nat :: k < |owners'| && f in owners'[k] {
      if f in l0 || f in owners[i] {
        assert f in Holdings(l0, owners[i]);
        assert f in Holdings(freelist, o);
        assert f in o ==> f in owners'[i];
      } else {
        var k: nat :| k < |owners| && f in owners[k];
        assert f in owners'[k];
      }
    }
  }

  /** A place for one more process, which owns nothing yet. */
  lemma FamilyMore(mem: Memory, freelist: seq<nat>, procs: seq<Proc>, owners: seq<map<nat, Slot>>, p: Proc,
                   frames: set<nat>, first: nat, limit: nat)
    requires FamilyBut(mem, freelist, procs, owners, |procs|, first, limit) && Conserved(freelist, owners, frames)
    ensures FamilyBut(mem, freelist, procs + [p], owners + [map[]], |procs|, first, limit)
    ensures Conserved(freelist, owners + [map[]], frames)
  {
    hide Member, Pool;
    forall f | f in frames
      ensures f in freelist || exists k: nat :: k < |owners + [map[]]| && f in (owners + [map[]])[k]
    {
      if f !in freelist {
        var k: nat :| k < |owners| && f in owners[k];
        assert f in (owners + [map[]])[k];
      }
    }
  }

  /** A process that owns nothing leaves. */
  lemma FamilyLess(mem: Memory, freelist: seq<nat>, procs: seq<Proc>, owners: seq<map<nat, Slot>>, i: nat,
                   frames: set<nat>, first: nat, limit: nat)
    requires FamilyBut(mem, freelist, procs, owners, i, first, limit) && Conserved(freelist, owners, frames)
    requires i < |owners| && owners[i] == map[]
    ensures var procs', owners' := procs[..i] + procs[i + 1..], owners[..i] + owners[i + 1..];
      FamilyBut(mem, freelist, procs', owners', |procs'|, first, limit) && Conserved(freelist, owners', frames)
  {
    hide Member, Pool;
    var owners' := owners[..i] + owners[i + 1..];
    forall f | f in frames ensures f in freelist || exists k: nat :: k < |owners'| && f in owners'[k] {
      if f !in freelist {
        var k: nat :| k < |owners| && f in owners[k];
        assert f in owners'[if k < i then k else k - 1];
      }
    }
  }

  lemma FamilyOut(mem: Memory, freelist: seq<nat>, procs: seq<Proc>, owners: seq<map<nat, Slot>>, i: nat, first: nat,
                  limit: nat)
    requires FamilyBut(mem, freelist, procs, owners, |procs|, first, limit)
    ensures |owners| == |procs| && Pool(mem, freelist, map[], first, limit)
    ensures i < |procs| ==> FamilyBut(mem, freelist, procs, owners, i, first, limit)
    ensures i < |procs| ==> Member(mem, freelist, procs[i], owners[i], first, limit)
  {
  }

  lemma FamilyIn(mem: Memory, freelist: seq<nat>, procs: seq<Proc>, owners: seq<map<nat, Slot>>, i: nat, p: Proc,
                 first: nat, limit: nat)
    requires FamilyBut(mem, freelist, procs, owners, i, first, limit) && i < |procs|
    requires Member(mem, freelist, p, owners[i], first, limit)
    ensures FamilyBut(mem, freelist, procs[i := p], owners, |procs|, first, limit)
  {
    hide Member, Pool, Apart;
  }

  /** No user page of a fresh directory is mapped. */
  lemma FreshTrim(mem: Memory, pgdir: nat, n: nat, sz: nat, dataPage: nat)
    requires EXTMEM_PAGE < dataPage < PHYSTOP_PAGE && n <= PagesFor(sz)
    requires forall v: nat :: n <= v < NENTRIES * NENTRIES ==> Lookup(mem, pgdir, v) == KernelEntry(v, 4, dataPage)
    ensures Trim(mem, pgdir, sz)
  {
    forall v: nat | PagesFor(sz) <= v < USER_PAGES ensures !Present(Lookup(mem, pgdir, v)) {
      NoUserEntry(v, 4, dataPage);
    }
  }

  lemma CopyIsMember(m0: Memory, pgdir: nat, mem: Memory, freelist: seq<nat>, d: nat, child: map<nat, Slot>,
                     owner: map<nat, Slot>, sz: nat, dataPage: nat, first: nat, limit: nat)
    requires Space(mem, d, child) && Pool(mem, freelist, child, first, limit) && sz <= USER_PAGES * PGSIZE
    requires Copied(m0, pgdir, mem, d, child, owner, PagesFor(sz), dataPage)
    ensures Member(mem, freelist, Proc(d, sz), child, first, limit) && Full(mem, d, sz) && Full(m0, pgdir, sz)
  {
    FreshTrim(mem, d, PagesFor(sz), sz, dataPage);
    forall v: nat | v < PagesFor(sz) ensures Present(Lookup(mem, d, v)) && Present(Lookup(m0, pgdir, v)) {
      assert CopiedPage(m0, pgdir, mem, d, child, owner, v);
    }
  }

  datatype ForkResult = Forked | ForkFailed | ForkPanicked

  // Runs, as far as sizes show them

  /** A process from outside: its size, and whether it has shrunk to nothing since. */
  datatype View = View(sz: nat, hollow: bool)

  ghost function ViewsOf(procs: seq<Proc>, hollow: seq<bool>): (vs: seq<View>)
    requires |hollow| == |procs|
    ensures |vs| == |procs| && forall i: nat :: i < |vs| ==> vs[i] == View(procs[i].sz, hollow[i])
  {
    seq(|procs|, i requires 0 <= i < |procs| => View(procs[i].sz, hollow[i]))
  }

  lemma ViewsMore(procs: seq<Proc>, hollow: seq<bool>, p: Proc, h: bool)
    requires |hollow| == |procs|
    ensures ViewsOf(procs + [p], hollow + [h]) == ViewsOf(procs, hollow) + [View(p.sz, h)]
  {
  }

  lemma ViewsLess(procs: seq<Proc>, hollow: seq<bool>, i: nat)
    requires |hollow| == |procs| && i < |procs|
    ensures ViewsOf(procs[..i] + procs[i + 1..], hollow[..i] + hollow[i + 1..]) ==
            ViewsOf(procs, hollow)[..i] + ViewsOf(procs, hollow)[i + 1..]
  {
  }

  /** What growproc may make of a process. */
  predicate Grows(v: View, n: int, w: View) {
    if n > 0 then w == v || w == View(v.sz + n, v.hollow)
    else if v.sz + n > 0 then w == View(v.sz + n, v.hollow)
    else if v.sz + n == 0 && v.sz > 0 then w == View(v.sz, true)
    else w == v
  }

  predicate Stepped(vs: seq<View>, op: Op, vs': seq<View>) {
    match op
    case Spawn => vs' == vs || vs' == vs + [View(0, false)]
    case Grow(i, n) =>
      if i < |vs| then |vs'| == |vs| && Grows(vs[i], n, vs'[i]) && vs' == vs[i := vs'[i]] else vs' == vs
    case Fork(i) => vs' == vs || (i < |vs| && !vs[i].hollow && vs' == vs + [View(vs[i].sz, false)])
    case Reap(i) => if i < |vs| then vs' == vs[..i] + vs[i + 1..] else vs' == vs
  }

  ghost predicate History(hist: seq<seq<View>>, ops: seq<Op>) {
    0 < |hist| <= |ops| + 1 && forall k: nat :: k + 1 < |hist| ==> Stepped(hist[k], ops[k], hist[k + 1])
  }

  /** The operation shrinks a process of some size to nothing. */
  predicate Empties(vs: seq<View>, op: Op) {
    op.Grow? && op.i < |vs| && vs[op.i].sz > 0 && vs[op.i].sz + op.n == 0
  }

  /** Only such an operation hollows a process out. */
  lemma {:induction false} HollowOrigin(hist: seq<seq<View>>, ops: seq<Op>, k: nat, i: nat)
    requires History(hist, ops) && k < |hist| && i < |hist[k]| && hist[k][i].hollow
    requires forall j: nat :: j < |hist[0]| ==> !hist[0][j].hollow
    ensures exists j: nat :: j < k && j < |ops| && Empties(hist[j], ops[j])
    decreases k
  {
    if k > 0 {
      var vs, op := hist[k - 1], ops[k - 1];
      assert Stepped(vs, op, hist[k]);
      if !Empties(vs, op) {
        var j := HollowBefore(vs, op, hist[k], i);
        HollowOrigin(hist, ops, k - 1, j);
      }
    }
  }

  lemma HollowBefore(vs: seq<View>, op: Op, vs': seq<View>, i: nat) returns (j: nat)
    requires Stepped(vs, op, vs') && !Empties(vs, op) && i < |vs'| && vs'[i].hollow
    ensures j < |vs| && vs[j].hollow
  {
    j := if op.Reap? && op.i < |vs| && op.i <= i then i + 1 else i;
  }

  class Machine {
    const vm: Vm
    var procs: seq<Proc>
    ghost var owners: seq<map<nat, Slot>>
    ghost var hollow: seq<bool>
    ghost const frames: set<nat>

    ghost predicate Valid()
      reads this, vm
    {
      && EXTMEM_PAGE < vm.dataPage < PHYSTOP_PAGE
      && FamilyBut(vm.mem, vm.freelist, procs, owners, |procs|, vm.first, vm.limit)
      && Conserved(vm.freelist, owners, frames) && AllMarked(vm.mem, procs, hollow)
    }

    ghost function Views(): seq<View>
      requires |hollow| == |procs|
      reads this
    {
      ViewsOf(procs, hollow)
    }

    constructor (vm: Vm)
      requires Pool(vm.mem, vm.freelist, map[], vm.first, vm.limit) && EXTMEM_PAGE < vm.dataPage < PHYSTOP_PAGE
      ensures Valid() && this.vm == vm && procs == [] && forall f :: f in frames <==> f in vm.freelist
    {
      this.vm, procs, owners, hollow, frames := vm, [], [], [], set f | f in vm.freelist;
    }

    /** A process starts with an empty address space, unless memory runs out. */
    method Spawn() returns (ok: bool)
      requires Valid()
      modifies this`procs, this`owners, this`hollow, vm
      ensures Valid() && Views() == if ok then old(Views()) + [View(0, false)] else old(Views())
      ensures ok <==> |old(vm.freelist)| >= KERNEL_FRAMES
    {
      hide Space, Pool, Kept, Lookup, FamilyBut, Conserved, Full, Hollow, Tabs, KernelTables;
      ghost var m0, l0, n := vm.mem, vm.freelist, |procs|;
      FamilyOut(m0, l0, procs, owners, n, vm.first, vm.limit);
      var r;
      ghost var o;
      r, o := vm.Setupkvm();
      ok := r.Some?;
      var p := Proc(if ok then r.value else 0, 0);
      FamilyMore(m0, l0, procs, owners, p, frames, vm.first, vm.limit);
      FamilyStep(m0, l0, procs + [p], owners + [map[]], n, frames, vm.mem, vm.freelist, o, vm.first, vm.limit);
      OthersMarked(m0, vm.mem, procs, p, hollow);
      assert (owners + [map[]])[n := o] == owners + [o] && (procs + [p])[n := p] == procs + [p];
      if ok {
        FreshTrim(vm.mem, p.pgdir, 0, 0, vm.dataPage);
        NoPages(vm.mem, p.pgdir);
        FamilyIn(vm.mem, vm.freelist, procs + [p], owners + [o], n, p, vm.first, vm.limit);
        ViewsMore(procs, hollow, p, false);
        procs, owners, hollow := procs + [p], owners + [o], hollow + [false];
      } else {
        FamilyLess(vm.mem, vm.freelist, procs + [p], owners + [o], n, frames, vm.first, vm.limit);
        assert (owners + [o])[..n] + (owners + [o])[n + 1..] == owners;
        assert (procs + [p])[..n] + (procs + [p])[n + 1..] == procs;
      }
    }

    /** growproc of one process. */
    method Grow(i: nat, n: int) returns (ok: bool)
      requires Valid() && i < |procs| && -INT_LIMIT <= n < INT_LIMIT
      modifies this`procs, this`owners, this`hollow, vm
      ensures Valid() && |procs| == |old(procs)| && Grows(old(Views())[i], n, Views()[i])
      ensures Views() == old(Views())[i := Views()[i]]
      ensures ok <==> if n > 0 then procs[i].sz == old(procs)[i].sz + n
                      else n == 0 || (old(procs)[i].sz > 0 && old(procs)[i].sz + n != 0)
      ensures n > 0 ==>
        (ok <==> CanGrow(old(vm.mem), |old(vm.freelist)|, old(procs)[i].pgdir, old(procs)[i].sz, n))
    {
      hide Space, Pool, Kept, Lookup, FamilyBut, Conserved, Full, Trim, Hollow, CanGrow;
      ghost var m0, l0 := vm.mem, vm.freelist;
      FamilyOut(m0, l0, procs, owners, i, vm.first, vm.limit);
      var p := procs[i];
      var sz;
      ghost var o;
      ok, sz, o := Growproc(vm, p.pgdir, p.sz, n, owners[i]);
      FamilyStep(m0, l0, procs, owners, i, frames, vm.mem, vm.freelist, o, vm.first, vm.limit);
      FamilyIn(vm.mem, vm.freelist, procs, owners[i := o], i, Proc(p.pgdir, sz), vm.first, vm.limit);
      procs, owners := procs[i := Proc(p.pgdir, sz)], owners[i := o];
      hollow := hollow[i := hollow[i] || (!ok && n <= 0 && p.sz > 0)];
    }

    /** fork: a copy of one process.  It panics only if that process misses a page, it succeeds
        only if it misses none, and it fails exactly when there are too few frames. */
    method Fork(i: nat) returns (r: ForkResult)
      requires Valid() && i < |procs|
      modifies this`procs, this`owners, this`hollow, vm
      ensures r.ForkPanicked? ==> !Full(old(vm.mem), old(procs)[i].pgdir, old(procs)[i].sz) && old(hollow)[i]
      ensures r.Forked? ==> Full(old(vm.mem), old(procs)[i].pgdir, old(procs)[i].sz) && !old(hollow)[i]
      ensures r.Forked? <==> !old(hollow)[i] && |old(vm.freelist)| >= CopyFrames(PagesFor(old(procs)[i].sz))
      ensures r.ForkPanicked? <==> old(hollow)[i] && |old(vm.freelist)| >= KERNEL_FRAMES
      ensures !r.ForkPanicked? ==> Valid()
      ensures r.Forked? ==> Views() == old(Views()) + [View(old(procs)[i].sz, false)]
      ensures r.Forked? ==> var p := old(procs)[i];
        Copied(old(vm.mem), p.pgdir, vm.mem, procs[|old(procs)|].pgdir, owners[|old(procs)|], old(owners)[i],
               PagesFor(p.sz), vm.dataPage)
      ensures !r.Forked? ==> procs == old(procs) && hollow == old(hollow)
    {
      hide Space, Pool, Kept, Lookup, FamilyBut, Conserved, Copied, Trim, ParentKept, CopyFrames, Unbroken, Full;
      ghost var m0, l0, n := vm.mem, vm.freelist, |procs|;
      FamilyOut(m0, l0, procs, owners, i, vm.first, vm.limit);
      ghost var o;
      var c;
      ForkNeeds(m0, procs[i], hollow[i]);
      c, o := vm.Copyuvm(procs[i].pgdir, procs[i].sz, owners[i]);
      if c.MissingPage? {
        return ForkPanicked;
      }
      var p := Proc(if c.Child? then c.d else 0, procs[i].sz);
      FamilyMore(m0, l0, procs, owners, p, frames, vm.first, vm.limit);
      FamilyStep(m0, l0, procs + [p], owners + [map[]], n, frames, vm.mem, vm.freelist, o, vm.first, vm.limit);
      OthersMarked(m0, vm.mem, procs, p, hollow);
      assert (owners + [map[]])[n := o] == owners + [o] && (procs + [p])[n := p] == procs + [p];
      if c.Child? {
        CopyIsMember(m0, procs[i].pgdir, vm.mem, vm.freelist, c.d, o, owners[i], p.sz, vm.dataPage, vm.first, vm.limit);
        NotHollow(m0, procs[i].pgdir, p.sz);
        FamilyIn(vm.mem, vm.freelist, procs + [p], owners + [o], n, p, vm.first, vm.limit);
        ViewsMore(procs, hollow, p, false);
        procs, owners, hollow := procs + [p], owners + [o], hollow + [false];
        return Forked;
      }
      FamilyLess(vm.mem, vm.freelist, procs + [p], owners + [o], n, frames, vm.first, vm.limit);
      assert (owners + [o])[..n] + (owners + [o])[n + 1..] == owners;
      assert (procs + [p])[..n] + (procs + [p])[n + 1..] == procs;
      return ForkFailed;
    }

    /** A process is gone; freevm has taken its address space apart. */
    method Reap(i: nat)
      requires Valid() && i < |procs|
      modifies this`procs, this`owners, this`hollow, vm
      ensures Valid() && procs == old(procs)[..i] + old(procs)[i + 1..]
      ensures Views() == old(Views())[..i] + old(Views())[i + 1..]
    {
      hide Space, Pool, Kept, Lookup, FamilyBut, Conserved, Full, Trim, Hollow;
      ghost var m0, l0 := vm.mem, vm.freelist;
      FamilyOut(m0, l0, procs, owners, i, vm.first, vm.limit);
      vm.Freevm(procs[i].pgdir, owners[i]);
      FamilyStep(m0, l0, procs, owners, i, frames, vm.mem, vm.freelist, map[], vm.first, vm.limit);
      FamilyLess(vm.mem, vm.freelist, procs, owners[i := map[]], i, frames, vm.first, vm.limit);
      ViewsLess(procs, hollow, i);
      owners := owners[i := map[]];
      procs, owners := procs[..i] + procs[i + 1..], owners[..i] + owners[i + 1..];
      hollow := hollow[..i] + hollow[i + 1..];
    }

    /** One operation; an operation of a process that does not exist is skipped. */
    method Step(op: Op) returns (panicked: bool)
      requires Valid() && (op.Grow? ==> -INT_LIMIT <= op.n < INT_LIMIT)
      modifies this`procs, this`owners, this`hollow, vm
      ensures panicked ==> op.Fork? && op.i < |old(Views())| && old(Views())[op.i].hollow
      ensures !panicked ==> Valid() && Stepped(old(Views()), op, Views())
    {
      hide FamilyBut, Conserved, Marked;
      match op {
        case Spawn =>
          var ok := Spawn();
        case Grow(i, n) =>
          if i < |procs| {
            var ok := Grow(i, n);
          }
        case Fork(i) =>
          if i < |procs| {
            var r := Fork(i);
            return r.ForkPanicked?;
          }
        case Reap(i) =>
          if i < |procs| {
            Reap(i);
          }
      }
      return false;
    }

    /** Any operations of any processes, in any order.  fork panics only over a process that
        an earlier operation has shrunk from some size to nothing. */
    method Run(ops: seq<Op>) returns (panicked: bool, ghost hist: seq<seq<View>>)
      requires Valid() && forall j: nat :: j < |hollow| ==> !hollow[j]
      requires forall k :: 0 <= k < |ops| && ops[k].Grow? ==> -INT_LIMIT <= ops[k].n < INT_LIMIT
      modifies this`procs, this`owners, this`hollow, vm
      ensures History(hist, ops) && hist[0] == old(Views())
      ensures !panicked ==> Valid() && |hist| == |ops| + 1 && hist[|ops|] == Views()
      ensures panicked ==>
        var k := |hist| - 1;
        && k < |ops| && ops[k].Fork? && ops[k].i < |hist[k]| && hist[k][ops[k].i].hollow
        && exists j: nat :: j < k && Empties(hist[j], ops[j])
    {
      hide FamilyBut, Conserved, AllMarked, Stepped;
      MarkedSize(vm.mem, procs, hollow);
      hist := [Views()];
      var k := 0;
      while k < |ops|
        invariant 0 <= k <= |ops| && Valid() && |hollow| == |procs|
        invariant |hist| == k + 1 && History(hist, ops) && hist[0] == old(Views()) && hist[k] == Views()
      {
        panicked := Step(ops[k]);
        if panicked {
          HollowOrigin(hist, ops, k, ops[k].i);
          return;
        }
        MarkedSize(vm.mem, procs, hollow);
        HistoryMore(hist, ops, Views());
        hist := hist + [Views()];
        k := k + 1;
      }
      return false, hist;
    }

    /** Once every process is gone, whatever happened before, the free list holds exactly the
        frames it began with, each once. */
    method Shutdown()
      requires Valid()
      modifies this`procs, this`owners, this`hollow, vm
      ensures procs == [] && Pool(vm.mem, vm.freelist, map[], vm.first, vm.limit)
      ensures forall f :: f in vm.freelist <==> f in frames
    {
      hide FamilyBut, Pool, AllMarked;
      while procs != []
        invariant Valid()
        decreases |procs|
      {
        Reap(0);
      }
      FamilyOut(vm.mem, vm.freelist, procs, owners, 0, vm.first, vm.limit);
    }
  }

  lemma OthersMarked(m0: Memory, mem: Memory, procs: seq<Proc>, p: Proc, hollow: seq<bool>)
    requires AllMarked(m0, procs, hollow)
    requires forall j: nat, h: bool :: j < |procs + [p]| && j != |procs| && Marked(m0, (procs + [p])[j], h) ==>
      Marked(mem, (procs + [p])[j], h)
    ensures AllMarked(mem, procs, hollow)
  {
    hide Marked;
    forall j: nat | j < |procs| ensures Marked(mem, procs[j], hollow[j]) {
      assert (procs + [p])[j] == procs[j];
    }
  }

  lemma MarkedSize(mem: Memory, procs: seq<Proc>, hollow: seq<bool>)
    requires AllMarked(mem, procs, hollow)
    ensures |hollow| == |procs|
  {
  }

  lemma HistoryMore(hist: seq<seq<View>>, ops: seq<Op>, vs: seq<View>)
    requires History(hist, ops) && |hist| <= |ops| && Stepped(hist[|hist| - 1], ops[|hist| - 1], vs)
    ensures History(hist + [vs], ops)
  {
    hide Stepped;
    var hist' := hist + [vs];
    forall k: nat | k + 1 < |hist'| ensures Stepped(hist'[k], ops[k], hist'[k + 1]) {
      assert k + 1 < |hist| ==> Stepped(hist[k], ops[k], hist[k + 1]);
    }
  }

  lemma ForkNeeds(mem: Memory, p: Proc, h: bool)
    requires Marked(mem, p, h)
    ensures h ==> p.sz > 0 && !Full(mem, p.pgdir, p.sz) && Unbroken(mem, p.pgdir, PagesFor(p.sz)) == 0 < PagesFor(p.sz)
    ensures !h ==> Full(mem, p.pgdir, p.sz) && Unbroken(mem, p.pgdir, PagesFor(p.sz)) == PagesFor(p.sz)
    ensures CopyFrames(0) == KERNEL_FRAMES
  {
    hide Lookup;
    PagesGrow(0, p.sz);
    CopyFramesGrow(0, 0);
  }

  lemma NotHollow(mem: Memory, pgdir: nat, sz: nat)
    ensures Full(mem, pgdir, sz) ==> !Hollow(mem, pgdir, sz)
  {
    PagesGrow(0, sz);
  }

  lemma NoPages(mem: Memory, pgdir: nat)
    ensures Full(mem, pgdir, 0)
  {
    PagesGrow(0, 0);
  }

  /** The whole life of a machine: from a free list to any run and back. */
  method Lifetime(vm: Vm, ops: seq<Op>) returns (panicked: bool, ghost hist: seq<seq<View>>)
    requires Pool(vm.mem, vm.freelist, map[], vm.first, vm.limit) && EXTMEM_PAGE < vm.dataPage < PHYSTOP_PAGE
    requires forall k :: 0 <= k < |ops| && ops[k].Grow? ==> -INT_LIMIT <= ops[k].n < INT_LIMIT
    modifies vm
    ensures History(hist, ops) && hist[0] == []
    ensures panicked ==> exists j: nat :: j < |hist| - 1 && Empties(hist[j], ops[j])
    ensures !panicked ==> Pool(vm.mem, vm.freelist, map[], vm.first, vm.limit)
    ensures !panicked ==> forall f :: f in vm.freelist <==> f in old(vm.freelist)
  {
    hide Pool;
    var m := new Machine(vm);
    panicked, hist := m.Run(ops);
    if !panicked {
      m.Shutdown();
    }
  }
}
