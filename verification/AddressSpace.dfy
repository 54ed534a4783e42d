/** kalloc.c and the page-table code of vm.c.  `owner` is the ghost record of the frames one
    page directory has taken; methods receive it and return it updated. */
module AddressSpace {
  import opened FrameCount
  import opened PageTable
  import opened Params
  import Sets

  const EXTMEM_PAGE := 0x100
  const PHYSTOP_PAGE := 0xE000
  const DEVSPACE_PAGE := 0xF_E000

  function Junk(): seq<nat> {
    seq(NENTRIES, _ => 0x0101_0101)
  }

  /** PGROUNDUP, in pages. */
  function PagesFor(sz: nat): nat {
    (sz + PGSIZE - 1) / PGSIZE
  }

  // Free frames and taken frames

  /** The free list holds each of its frames once, and none that the directory owns. */
  ghost predicate Pool(mem: Memory, freelist: seq<nat>, owner: map<nat, Slot>, first: nat, limit: nat) {
    && (forall i :: 0 <= i < |freelist| ==>
          first <= freelist[i] < limit && freelist[i] in mem && |mem[freelist[i]]| == NENTRIES && freelist[i] !in owner)
    && (forall i, j :: 0 <= i < j < |freelist| ==> freelist[i] != freelist[j])
    && (forall f :: f in owner ==> first <= f < limit && f in mem)
  }

  ghost function Holdings(freelist: seq<nat>, owner: map<nat, Slot>): set<nat> {
    (set f | f in freelist) + owner.Keys
  }

  /** Frames move between the free list and the directory, and nothing else is written. */
  ghost predicate Kept(mem: Memory, freelist: seq<nat>, owner: map<nat, Slot>,
                       mem': Memory, freelist': seq<nat>, owner': map<nat, Slot>) {
    Holdings(freelist', owner') == Holdings(freelist, owner) && Untouched(mem, mem', Holdings(freelist, owner))
  }

  class Vm {
    const first: nat
    const limit: nat
    const dataPage: nat
    var mem: Memory
    var freelist: seq<nat>

    /** At boot the free list is empty; freerange fills it. */
    constructor (m: Memory, first: nat, limit: nat, dataPage: nat)
      ensures this.first == first && this.limit == limit && this.dataPage == dataPage && mem == m && freelist == []
      ensures Pool(mem, freelist, map[], first, limit)
    {
      this.first, this.limit, this.dataPage, mem, freelist := first, limit, dataPage, m, [];
    }

    ghost predicate Ok(pgdir: nat, owner: map<nat, Slot>)
      reads this
    {
      Space(mem, pgdir, owner) && Pool(mem, freelist, owner, first, limit)
    }

    method Kalloc() returns (r: Option<nat>)
      modifies this`freelist
      ensures old(freelist) == [] ==> r.None? && freelist == []
      ensures old(freelist) != [] ==> r == Some(old(freelist)[0]) && freelist == old(freelist)[1..]
    {
      if freelist == [] {
        return None;
      }
      r := Some(freelist[0]);
      freelist := freelist[1..];
    }

    /** false is the panic on a frame outside the allocatable range. */
    method Kfree(f: nat) returns (ok: bool)
      modifies this
      ensures ok <==> first <= f < limit
      ensures !ok ==> mem == old(mem) && freelist == old(freelist)
      ensures ok ==> mem == old(mem)[f := Junk()] && freelist == [f] + old(freelist)
    {
      if !(first <= f < limit) {
        return false;
      }
      mem := mem[f := Junk()];
      freelist := [f] + freelist;
      return true;
    }

    /** freerange: the free list gains exactly the frames of the range, each once. */
    method Freerange(lo: nat, hi: nat)
      requires Pool(mem, freelist, map[], first, limit) && first <= lo <= hi <= limit
      requires forall f :: lo <= f < hi ==> f in mem && f !in freelist
      modifies this
      ensures Pool(mem, freelist, map[], first, limit)
      ensures forall f :: f in freelist <==> f in old(freelist) || lo <= f < hi
      ensures mem.Keys == old(mem).Keys && forall f :: f in mem && !(lo <= f < hi) ==> mem[f] == old(mem)[f]
    {
      var f := lo;
      while f < hi
        invariant lo <= f <= hi && Pool(mem, freelist, map[], first, limit)
        invariant forall g :: g in freelist <==> g in old(freelist) || lo <= g < f
        invariant mem.Keys == old(mem).Keys && forall g :: g in mem && !(lo <= g < f) ==> mem[g] == old(mem)[g]
      {
        var ok := Kfree(f);
        f := f + 1;
      }
    }

    /** walkpgdir: the table for a page, allocated on request.  No page becomes mapped or
        unmapped by it. */
    method Walkpgdir(pgdir: nat, vpn: nat, alloc: bool, ghost owner: map<nat, Slot>)
        returns (r: Option<nat>, ghost owner': map<nat, Slot>)
      requires Ok(pgdir, owner) && vpn < NENTRIES * NENTRIES
      modifies this
      ensures Ok(pgdir, owner') && Kept(old(mem), old(freelist), owner, mem, freelist, owner')
      ensures r.None? <==> !Present(Word(old(mem), pgdir, vpn / NENTRIES)) && (!alloc || old(freelist) == [])
      ensures r.Some? ==> Present(Word(mem, pgdir, vpn / NENTRIES)) && r.value == Addr(Word(mem, pgdir, vpn / NENTRIES))
      ensures r.None? || !alloc || Present(Word(old(mem), pgdir, vpn / NENTRIES)) ==>
        mem == old(mem) && freelist == old(freelist) && owner' == owner
      ensures forall v: nat :: v < NENTRIES * NENTRIES ==> Lookup(mem, pgdir, v) == Lookup(old(mem), pgdir, v)
      ensures SameUsers(owner, owner') && PagesKept(old(mem), mem, owner)
      ensures forall f :: f in freelist ==> f in old(freelist)
      ensures Tabs(mem, pgdir) ==
        if alloc && r.Some? then Tabs(old(mem), pgdir) + {vpn / NENTRIES} else Tabs(old(mem), pgdir)
    {
      hide Space, Pool, Holdings, Untouched, Lookup, Store, Tabs;
      owner' := owner;
      NoChange(mem, freelist, owner);
      DirFacts(mem, pgdir, owner);
      var i := vpn / NENTRIES;
      var pde := mem[pgdir][i];
      if Present(pde) {
        TabsAdded(mem, mem, pgdir, i);
        return Some(Addr(pde)), owner';
      }
      if !alloc {
        return None, owner';
      }
      var f := Kalloc();
      if f.None? {
        return None, owner';
      }
      var t := f.value;
      TakeFree(old(mem), old(freelist), owner, first, limit);
      AddTable(mem, pgdir, owner, i, t);
      EntryFields(t, PTE_W + PTE_U);
      TakenTable(mem, old(freelist), owner, first, limit, pgdir, i);
      mem := mem[t := Zeros()];
      mem := Store(mem, pgdir, i, MakeEntry(t, PTE_W + PTE_U));
      TabsAdded(old(mem), mem, pgdir, i);
      owner' := owner[t := Tab(i)];
      return Some(t), owner';
    }

    /** One round of the mappages loop: a user page takes the frame over, a kernel page only
        points at it.  Remap is its panic on a page that is mapped already. */
    method MapOne(pgdir: nat, vpn: nat, frame: nat, perm: nat, ghost owner: map<nat, Slot>)
        returns (r: MapResult, ghost owner': map<nat, Slot>)
      requires Ok(pgdir, owner) && vpn < NENTRIES * NENTRIES && perm < PGSIZE
      requires vpn < USER_PAGES ==> InHand(mem, freelist, owner, first, limit, frame)
      modifies this
      ensures Ok(pgdir, owner') && mem.Keys == old(mem).Keys
      ensures r.Remap? <==> Present(Lookup(old(mem), pgdir, vpn))
      ensures !r.Done? ==> mem == old(mem) && freelist == old(freelist) && owner' == owner
      ensures r.NoMemory? ==> old(freelist) == [] && vpn / NENTRIES !in Tabs(old(mem), pgdir)
      ensures r.Done? ==> Tabs(mem, pgdir) == Tabs(old(mem), pgdir) + {vpn / NENTRIES}
      ensures r.Done? ==>
        && Taken(old(mem), old(freelist), owner, mem, freelist, owner', if vpn < USER_PAGES then {frame} else {})
        && (vpn < USER_PAGES ==> frame in owner' && owner'[frame] == User(vpn) && mem[frame] == old(mem)[frame])
        && (forall v: nat :: v < NENTRIES * NENTRIES ==>
              Lookup(mem, pgdir, v) == if v == vpn then MakeEntry(frame, perm) else Lookup(old(mem), pgdir, v))
        && (forall f :: f in owner ==> f in owner' && owner'[f] == owner[f])
        && (forall f :: f in owner' && owner'[f].User? && f !in owner ==> vpn < USER_PAGES && f == frame)
      ensures PagesKept(old(mem), mem, owner)
      ensures forall f :: f in freelist ==> f in old(freelist)
    {
      hide Space, Pool, Holdings, Untouched, Lookup, Store, Kept, Taken, PagesKept, SameUsers, Tabs;
      var pte;
      LookupTable(mem, pgdir, vpn);
      TabsHas(mem, pgdir, vpn / NENTRIES);
      pte, owner' := Walkpgdir(pgdir, vpn, true, owner);
      if pte.None? {
        NothingTaken(mem, freelist, owner);
        return NoMemory, owner';
      }
      ghost var m1 := mem;
      var t := pte.value;
      TableFacts(mem, pgdir, owner', vpn / NENTRIES);
      LookupIs(mem, pgdir, vpn);
      if Present(mem[t][vpn % NENTRIES]) {
        return Remap, owner';
      }
      if vpn < USER_PAGES {
        StillInHand(old(mem), old(freelist), owner, m1, freelist, owner', first, limit, frame);
        MapUser(mem, pgdir, owner', vpn, frame, perm);
        TakeUser(old(mem), old(freelist), owner, m1, freelist, owner', first, limit, t, vpn, frame, perm);
        owner' := owner'[frame := User(vpn)];
      } else {
        MapKernel(mem, pgdir, owner', vpn, MakeEntry(frame, perm));
        TakeKernel(old(mem), old(freelist), owner, m1, freelist, owner', first, limit, t, vpn % NENTRIES,
                   MakeEntry(frame, perm));
      }
      TabsStored(mem, t, vpn % NENTRIES, MakeEntry(frame, perm), pgdir);
      mem := Store(mem, t, vpn % NENTRIES, MakeEntry(frame, perm));
      return Done, owner';
    }

    /** deallocuvm, oldsz at most KERNBASE: every mapped page from newsz up to oldsz goes back
        to the free list, no other page changes, and the jump over missing tables skips
        nothing that is mapped. */
    method Deallocuvm(pgdir: nat, oldsz: nat, newsz: nat, ghost owner: map<nat, Slot>)
        returns (r: nat, ghost owner': map<nat, Slot>)
      requires Ok(pgdir, owner) && oldsz <= USER_PAGES * PGSIZE
      modifies this
      ensures r == if newsz >= oldsz then oldsz else newsz
      ensures Ok(pgdir, owner') && Kept(old(mem), old(freelist), owner, mem, freelist, owner')
      ensures owner' == Dropped(owner, PagesFor(newsz), PagesFor(oldsz)) && PagesKept(old(mem), mem, owner')
      ensures forall v: nat :: v < NENTRIES * NENTRIES ==>
        Lookup(mem, pgdir, v) == After(old(mem), pgdir, PagesFor(newsz), PagesFor(oldsz), v)
    {
      hide Space, Pool, Holdings, Untouched, Lookup, Store, Kept, PagesKept, Dropped, After;
      owner' := owner;
      ghost var lo, hi := PagesFor(newsz), PagesFor(oldsz);
      DropStart(mem, freelist, owner, pgdir, lo, hi);
      if newsz >= oldsz {
        return oldsz, owner';
      }
      var a := PagesFor(newsz);
      while a * PGSIZE < oldsz
        invariant lo <= a && Ok(pgdir, owner') && Kept(old(mem), old(freelist), owner, mem, freelist, owner')
        invariant owner' == Dropped(owner, lo, Least(a, hi)) && PagesKept(old(mem), mem, owner')
        invariant forall v: nat :: v < NENTRIES * NENTRIES ==>
          Lookup(mem, pgdir, v) == After(old(mem), pgdir, lo, Least(a, hi), v)
        decreases hi - a
      {
        var pte;
        ghost var o1 := owner';
        pte, owner' := Walkpgdir(pgdir, a, false, owner');
        if pte.None? {
          var next := (a / NENTRIES + 1) * NENTRIES;
          SkipTable(old(mem), owner, mem, pgdir, owner', lo, hi, a, next);
          a := next;
        } else {
          TableFacts(mem, pgdir, owner', a / NENTRIES);
          var w := mem[pte.value][a % NENTRIES];
          LookupIs(mem, pgdir, a);
          if Present(w) {
            var f := Addr(w);
            DropPage(old(mem), old(freelist), owner, mem, freelist, owner', pgdir, first, limit, lo, hi, a);
            var ok := Kfree(f);
            mem := Store(mem, pte.value, a % NENTRIES, 0);
            owner' := owner' - {f};
          } else {
            SkipPage(old(mem), owner, mem, pgdir, owner', lo, hi, a);
          }
          a := a + 1;
        }
      }
      return newsz, owner';
    }

    /** freevm: every frame that was taken for the directory, and only those, goes back to
        the free list, each once. */
    method Freevm(pgdir: nat, ghost owner: map<nat, Slot>)
      requires Ok(pgdir, owner)
      modifies this
      ensures Pool(mem, freelist, map[], first, limit)
      ensures Kept(old(mem), old(freelist), owner, mem, freelist, map[])
    {
      hide Space, Pool, Holdings, Untouched, Lookup, Store, Kept, PagesKept, Dropped, After, Tables;
      var r;
      ghost var o1;
      r, o1 := Deallocuvm(pgdir, USER_PAGES * PGSIZE, 0, owner);
      TablesLeft(mem, pgdir, owner, o1);
      ghost var pd := mem[pgdir];
      ghost var o := o1;
      var i := 0;
      while i < NENTRIES
        invariant 0 <= i <= NENTRIES && pgdir in mem && mem[pgdir] == pd && |pd| == NENTRIES
        invariant Pool(mem, freelist, o, first, limit) && Kept(old(mem), old(freelist), owner, mem, freelist, o)
        invariant Tables(pd, pgdir, o, i)
      {
        if Present(mem[pgdir][i]) {
          var t := Addr(mem[pgdir][i]);
          TableHere(pd, pgdir, o, i);
          PoolFree(mem, freelist, o, first, limit, t);
          KeptTrans(old(mem), old(freelist), owner, mem, freelist, o, mem[t := Junk()], [t] + freelist, o - {t});
          var ok := Kfree(t);
          o := o - {t};
        } else {
          TableNone(pd, pgdir, o, i);
        }
        i := i + 1;
      }
      OnlyDir(pd, pgdir, o);
      PoolFree(mem, freelist, o, first, limit, pgdir);
      KeptTrans(old(mem), old(freelist), owner, mem, freelist, o, mem[pgdir := Junk()], [pgdir] + freelist,
                o - {pgdir});
      var ok := Kfree(pgdir);
      assert o - {pgdir} == map[];
    }

    /** mappages over a range of kernel pages. */
    method MapRange(pgdir: nat, region: Region, ghost owner: map<nat, Slot>)
      returns (r: MapResult, ghost owner': map<nat, Slot>)
      requires Ok(pgdir, owner) && RegionOk(region)
      modifies this
      ensures Ok(pgdir, owner') && Kept(old(mem), old(freelist), owner, mem, freelist, owner')
      ensures r.Remap? ==> exists v: nat :: InRegion(region, v) && Present(Lookup(old(mem), pgdir, v))
      ensures r.Done? ==> forall v: nat :: InRegion(region, v) ==> !Present(Lookup(old(mem), pgdir, v))
      ensures r.Done? ==> forall v: nat :: v < NENTRIES * NENTRIES ==>
        Lookup(mem, pgdir, v) == if InRegion(region, v) then RegionEntry(region, v) else Lookup(old(mem), pgdir, v)
      ensures r.Done? ==> Tabs(mem, pgdir) == Tabs(old(mem), pgdir) + TablesOf(region.vpn, region.vpn + region.n)
      ensures r.NoMemory? ==>
        && freelist == [] && Users(mem, pgdir) == Users(old(mem), pgdir)
        && Tabs(mem, pgdir) < Tabs(old(mem), pgdir) + TablesOf(region.vpn, region.vpn + region.n)
    {
      hide Space, Pool, Holdings, Untouched, Lookup, Store, Kept, Taken, PagesKept, Tabs, Users, TablesOf;
      owner' := owner;
      NoChange(mem, freelist, owner);
      NoTables(region.vpn);
      var k := 0;
      while k < region.n
        invariant 0 <= k <= region.n && Ok(pgdir, owner') && Kept(old(mem), old(freelist), owner, mem, freelist, owner')
        invariant forall v: nat :: v < NENTRIES * NENTRIES ==>
          Lookup(mem, pgdir, v) ==
          if region.vpn <= v < region.vpn + k then RegionEntry(region, v) else Lookup(old(mem), pgdir, v)
        invariant forall v: nat :: region.vpn <= v < region.vpn + k ==> !Present(Lookup(old(mem), pgdir, v))
        invariant Tabs(mem, pgdir) == Tabs(old(mem), pgdir) + TablesOf(region.vpn, region.vpn + k)
      {
        ghost var m1, l1, o1 := mem, freelist, owner';
        r, owner' := MapOne(pgdir, region.vpn + k, region.frame + k, region.perm, owner');
        TablesMore(region.vpn, region.vpn + k);
        if !r.Done? {
          TablesWithin(region.vpn, region.vpn + k + 1, region.vpn + region.n);
          UsersKept(old(mem), mem, pgdir);
          assert r.Remap? ==> InRegion(region, region.vpn + k);
          return;
        }
        TakenNone(m1, l1, o1, mem, freelist, owner');
        KeptTrans(old(mem), old(freelist), owner, m1, l1, o1, mem, freelist, owner');
        k := k + 1;
      }
      return Done, owner';
    }

    /** setupkvm: a directory with the kernel mappings and nothing else, or, exactly when there
        are too few frames, none and every frame back on the free list. */
    method Setupkvm() returns (r: Option<nat>, ghost owner: map<nat, Slot>)
      requires Pool(mem, freelist, map[], first, limit) && EXTMEM_PAGE < dataPage < PHYSTOP_PAGE
      modifies this
      ensures r.None? ==> owner == map[] && Pool(mem, freelist, map[], first, limit)
      ensures r.Some? ==>
        && Ok(r.value, owner)
        && Tabs(mem, r.value) == KernelTables()
        && forall v: nat :: v < NENTRIES * NENTRIES ==> Lookup(mem, r.value, v) == KernelEntry(v, 4, dataPage)
      ensures Kept(old(mem), old(freelist), map[], mem, freelist, owner)
      ensures r.Some? <==> |old(freelist)| >= KERNEL_FRAMES
    {
      hide Space, Pool, Holdings, Untouched, Lookup, Store, Kept, Taken, PagesKept, Tabs, Users, TablesOf, KernelTables;
      owner := map[];
      NoChange(mem, freelist, owner);
      r := Kalloc();
      if r.None? {
        return;
      }
      var pgdir := r.value;
      NewDir(old(mem), old(freelist), first, limit, dataPage);
      mem := mem[pgdir := Zeros()];
      owner := map[pgdir := Dir];
      var k := 0;
      while k < 4
        invariant 0 <= k <= 4 && Ok(pgdir, owner) && Kept(old(mem), old(freelist), map[], mem, freelist, owner)
        invariant forall v: nat :: v < NENTRIES * NENTRIES ==> Lookup(mem, pgdir, v) == KernelEntry(v, k, dataPage)
        invariant Tabs(mem, pgdir) == KernelTabs(k, dataPage)
      {
        ghost var m1, l1, o1 := mem, freelist, owner;
        KmapFree(k, dataPage);
        var mapped;
        mapped, owner := MapRange(pgdir, Kmap(k, dataPage), owner);
        KeptTrans(old(mem), old(freelist), map[], m1, l1, o1, mem, freelist, owner);
        if !mapped.Done? {
          ghost var m2, l2 := mem, freelist;
          KernelShort(old(mem), old(freelist), m1, m2, pgdir, owner, k, dataPage, first, limit);
          Freevm(pgdir, owner);
          KeptTrans(old(mem), old(freelist), map[], m2, l2, owner, mem, freelist, map[]);
          return None, map[];
        }
        k := k + 1;
      }
      KernelTabsAll(dataPage);
      NoUsers(mem, pgdir, 4, dataPage);
      SpaceSize(mem, pgdir, owner);
      KeptSize(old(mem), old(freelist), map[], mem, freelist, owner, first, limit);
      return Some(pgdir), owner;
    }

    /** kalloc, fill and mappages for one user page.  NoTable leaves the frame in the caller's
        hands; Mapped? never holds for a page that was mapped already. */
    method AllocPage(pgdir: nat, vpn: nat, content: seq<nat>, perm: nat, ghost owner: map<nat, Slot>)
        returns (r: PageResult, ghost owner': map<nat, Slot>)
      requires Ok(pgdir, owner) && vpn < USER_PAGES && perm < PGSIZE && |content| == NENTRIES
      modifies this
      ensures Ok(pgdir, owner') && PagesKept(old(mem), mem, owner)
      ensures r.NoFrame? <==> old(freelist) == []
      ensures r.Remapped? <==> old(freelist) != [] && Present(Lookup(old(mem), pgdir, vpn))
      ensures r.Mapped? ==>
        && Kept(old(mem), old(freelist), owner, mem, freelist, owner')
        && r.f in old(freelist) && r.f in mem && mem[r.f] == content && r.f in owner' && owner'[r.f] == User(vpn)
        && (forall v: nat :: v < NENTRIES * NENTRIES ==>
              Lookup(mem, pgdir, v) == if v == vpn then MakeEntry(r.f, perm) else Lookup(old(mem), pgdir, v))
        && (forall f :: f in owner ==> f in owner' && owner'[f] == owner[f])
        && (forall f :: f in owner' && owner'[f].User? && f !in owner ==> f == r.f)
        && Tabs(mem, pgdir) == Tabs(old(mem), pgdir) + {vpn / NENTRIES}
      ensures r.NoFrame? ==> mem == old(mem) && freelist == old(freelist) && owner' == owner
      ensures r.NoTable? ==>
        && owner' == owner && old(freelist) == [r.f] && freelist == [] && r.f in old(mem)
        && mem == old(mem)[r.f := content]
        && InHand(mem, freelist, owner, first, limit, r.f) && vpn / NENTRIES !in Tabs(old(mem), pgdir)
        && (forall v: nat :: v < NENTRIES * NENTRIES ==> Lookup(mem, pgdir, v) == Lookup(old(mem), pgdir, v))
    {
      hide Space, Pool, Holdings, Untouched, Lookup, Store, Kept, Taken, PagesKept, Tabs;
      NothingTaken(mem, freelist, owner);
      var k := Kalloc();
      if k.None? {
        return NoFrame, owner;
      }
      var f := k.value;
      HandOut(mem, old(freelist), owner, first, limit, pgdir, content);
      mem := mem[f := content];
      ghost var m1, l1 := mem, freelist;
      var mapped;
      mapped, owner' := MapOne(pgdir, vpn, f, perm, owner);
      if mapped.NoMemory? {
        return NoTable(f), owner';
      }
      if mapped.Remap? {
        return Remapped, owner';
      }
      Placed(old(mem), old(freelist), owner, m1, mem, freelist, owner', content);
      return Mapped(f), owner';
    }

    /** allocuvm: all pages from oldsz to newsz appear, zeroed, or, exactly when there are too
        few frames, none of them is left, not even one that was there before.  Page tables may stay behind then, but
        they are owned and freevm returns them.  MappedTwice is the panic of mappages. */
    method Allocuvm(pgdir: nat, oldsz: nat, newsz: nat, ghost owner: map<nat, Slot>)
        returns (r: AllocResult, ghost owner': map<nat, Slot>)
      requires Ok(pgdir, owner)
      modifies this
      ensures Ok(pgdir, owner')
      ensures r.Sized? ==> r.sz == (if newsz < oldsz then oldsz else newsz) && PagesKept(old(mem), mem, owner)
      ensures !r.MappedTwice? ==> Kept(old(mem), old(freelist), owner, mem, freelist, owner')
      ensures r.OutOfMemory? && newsz < USER_PAGES * PGSIZE ==>
        PagesKept(old(mem), mem, Dropped(owner, PagesFor(oldsz), PagesFor(newsz)))
      ensures newsz >= USER_PAGES * PGSIZE ==>
        r.OutOfMemory? && mem == old(mem) && freelist == old(freelist) && owner' == owner
      ensures !r.MappedTwice? ==>
        forall v: nat :: v < NENTRIES * NENTRIES && !(PagesFor(oldsz) <= v < PagesFor(newsz)) ==>
        Lookup(mem, pgdir, v) == Lookup(old(mem), pgdir, v)
      ensures r.Sized? ==> forall v: nat :: PagesFor(oldsz) <= v < PagesFor(newsz) ==>
        ZeroedPage(mem, pgdir, v) && !Present(Lookup(old(mem), pgdir, v))
      ensures r.OutOfMemory? && newsz < USER_PAGES * PGSIZE ==>
        forall v: nat :: PagesFor(oldsz) <= v < PagesFor(newsz) ==> !Present(Lookup(mem, pgdir, v))
      ensures r.MappedTwice? ==>
        exists v: nat :: PagesFor(oldsz) <= v < PagesFor(newsz) && Present(Lookup(old(mem), pgdir, v))
      ensures oldsz <= newsz < USER_PAGES * PGSIZE ==>
        var lo, hi := PagesFor(oldsz), PagesFor(newsz);
        && (r.OutOfMemory? <==> |old(freelist)| < AllocFrames(old(mem), pgdir, lo, hi))
        && (r.MappedTwice? ==> FirstMapped(old(mem), pgdir, lo, hi) < hi)
        && (r.Sized? ==> FirstMapped(old(mem), pgdir, lo, hi) == hi || hi <= lo)
    {
      hide Space, Pool, Holdings, Untouched, Lookup, Store, Kept, Taken, PagesKept, Dropped, After, ZeroedPage, InHand;
      hide Tabs, Users, TablesOf, FirstMapped, FramesToMap, AllocFrames;
      owner' := owner;
      NoChange(mem, freelist, owner);
      NothingTaken(mem, freelist, owner);
      if newsz >= USER_PAGES * PGSIZE {
        return OutOfMemory, owner';
      }
      if newsz < oldsz {
        return Sized(oldsz), owner';
      }
      ghost var lo, hi := PagesFor(oldsz), PagesFor(newsz);
      var a := PagesFor(oldsz);
      NoTables(lo);
      while a * PGSIZE < newsz
        invariant lo <= a && (a <= hi || a == lo) && Ok(pgdir, owner')
        invariant Kept(old(mem), old(freelist), owner, mem, freelist, owner') && PagesKept(old(mem), mem, owner)
        invariant forall v: nat :: v < NENTRIES * NENTRIES && !(lo <= v < a) ==>
          Lookup(mem, pgdir, v) == Lookup(old(mem), pgdir, v)
        invariant forall v: nat :: lo <= v < a ==> ZeroedPage(mem, pgdir, v)
        invariant forall v: nat :: lo <= v < a ==> !Present(Lookup(old(mem), pgdir, v))
        invariant forall f :: f in owner ==> f in owner' && owner'[f] == owner[f]
        invariant Tabs(mem, pgdir) == Tabs(old(mem), pgdir) + TablesOf(lo, a)
        decreases hi - a
      {
        GrownSize(old(mem), old(freelist), owner, mem, freelist, owner', pgdir, lo, a, first, limit);
        AllocNeeds(old(mem), pgdir, lo, a, hi);
        TablesMore(lo, a);
        ghost var m1, l1, o1 := mem, freelist, owner';
        var p;
        p, owner' := AllocPage(pgdir, a, Zeros(), PTE_W + PTE_U, owner');
        PagesTrans(old(mem), m1, mem, owner, o1);
        if p.Mapped? {
          KeptTrans(old(mem), old(freelist), owner, m1, l1, o1, mem, freelist, owner');
          ZeroedMore(m1, mem, pgdir, o1, lo, a, p.f);
        } else if p.Remapped? {
          return MappedTwice, owner';
        } else {
          ghost var m2, l2, o2 := mem, freelist, owner';
          var sz;
          sz, owner' := Deallocuvm(pgdir, newsz, oldsz, owner');
          UndonePages(old(mem), m2, mem, owner, o2, owner', lo, hi);
          UndoneLookups(old(mem), m2, mem, pgdir, lo, hi, a);
          if p.NoTable? {
            GiveBack(m1, l1, o1, m2, l2, mem, freelist, owner', pgdir, first, limit, p.f);
            GiveBackPages(old(mem), mem, owner, lo, hi, o1, m2, l2, p.f, first, limit);
            var done := Kfree(p.f);
          }
          KeptTrans(old(mem), old(freelist), owner, m1, l1, o1, mem, freelist, owner');
          return OutOfMemory, owner';
        }
        a := a + 1;
      }
      GrownSize(old(mem), old(freelist), owner, mem, freelist, owner', pgdir, lo, a, first, limit);
      AllocNeeds(old(mem), pgdir, lo, a, hi);
      return Sized(newsz), owner';
    }

    /** copyuvm: the child maps the same user pages with the same flags and contents, on
        frames of its own; the parent is unchanged.  Exactly when there are too few frames for
        the pages in front of the parent's first hole there is no child and every frame is
        back on the free list.  MissingPage is either of its panics. */
    method Copyuvm(pgdir: nat, sz: nat, ghost owner: map<nat, Slot>)
      returns (r: CopyResult, ghost child: map<nat, Slot>)
      requires Ok(pgdir, owner) && sz <= USER_PAGES * PGSIZE && EXTMEM_PAGE < dataPage < PHYSTOP_PAGE
      modifies this
      ensures Ok(pgdir, owner) && ParentKept(old(mem), mem, owner)
      ensures Kept(old(mem), old(freelist), map[], mem, freelist, child)
      ensures r.NoCopy? ==> child == map[] && Pool(mem, freelist, map[], first, limit)
      ensures r.Child? ==> Ok(r.d, child) && Copied(old(mem), pgdir, mem, r.d, child, owner, PagesFor(sz), dataPage)
      ensures r.MissingPage? ==> exists v: nat :: v < PagesFor(sz) && !Present(Lookup(old(mem), pgdir, v))
      ensures var k := Unbroken(old(mem), pgdir, PagesFor(sz));
        && (r.NoCopy? <==> |old(freelist)| < CopyFrames(k))
        && (r.MissingPage? <==> |old(freelist)| >= CopyFrames(k) && k < PagesFor(sz))
      ensures r.Child? ==> |freelist| == |old(freelist)| - CopyFrames(PagesFor(sz))
    {
      hide Space, Pool, Holdings, Untouched, Lookup, Store, Kept, Taken, PagesKept, ParentKept, Copied, InHand;
      hide Tabs, Users, TablesOf, KernelTables, Unbroken, CopyFrames;
      PoolForget(mem, freelist, owner, first, limit);
      var k;
      k, child := Setupkvm();
      Isolated(old(mem), old(freelist), map[], mem, freelist, child, pgdir, owner, first, limit);
      if k.None? {
        CopyFramesGrow(0, Unbroken(old(mem), pgdir, PagesFor(sz)));
        return NoCopy, child;
      }
      var d := k.value;
      NoTables(0);
      CopiedStart(old(mem), pgdir, mem, d, child, owner, dataPage);
      var i := 0;
      while i * PGSIZE < sz
        invariant 0 <= i <= PagesFor(sz) && Ok(d, child) && Ok(pgdir, owner) && ParentKept(old(mem), mem, owner)
        invariant Kept(old(mem), old(freelist), map[], mem, freelist, child)
        invariant Copied(old(mem), pgdir, mem, d, child, owner, i, dataPage)
        invariant Tabs(mem, d) == KernelTables() + TablesOf(0, i)
        decreases PagesFor(sz) - i
      {
        ghost var m1, l1, o1 := mem, freelist, child;
        CopyNeeds(old(mem), old(freelist), pgdir, mem, freelist, d, child, owner, i, PagesFor(sz), dataPage, first,
                  limit);
        ParentEntry(old(mem), mem, pgdir, owner, i);
        var pt := mem[pgdir][i / NENTRIES];
        if !Present(pt) {
          return MissingPage, child;
        }
        var w := mem[Addr(pt)][i % NENTRIES];
        if !Present(w) {
          return MissingPage, child;
        }
        ParentPage(old(mem), mem, pgdir, owner, i);
        var content := mem[Addr(w)];
        CopiedNext(old(mem), pgdir, mem, d, child, owner, i, dataPage);
        var p;
        p, child := AllocPage(d, i, content, Flags(w), child);
        TablesMore(0, i);
        if p.Mapped? {
          KeptTrans(old(mem), old(freelist), map[], m1, l1, o1, mem, freelist, child);
          Isolated(old(mem), old(freelist), map[], mem, freelist, child, pgdir, owner, first, limit);
          CopiedMore(old(mem), pgdir, m1, mem, d, o1, child, owner, i, dataPage, p.f, w);
        } else {
          NoChange(mem, freelist, child);
          if p.NoTable? {
            GiveBack(m1, l1, o1, mem, freelist, mem, freelist, child, d, first, limit, p.f);
            var ok := Kfree(p.f);
          }
          ghost var m2, l2 := mem, freelist;
          KeptTrans(old(mem), old(freelist), map[], m1, l1, o1, m2, l2, child);
          Freevm(d, child);
          KeptTrans(old(mem), old(freelist), map[], m2, l2, child, mem, freelist, map[]);
          Isolated(old(mem), old(freelist), map[], mem, freelist, map[], pgdir, owner, first, limit);
          return NoCopy, map[];
        }
        i := i + 1;
      }
      CopyNeeds(old(mem), old(freelist), pgdir, mem, freelist, d, child, owner, i, PagesFor(sz), dataPage, first,
                limit);
      return Child(d), child;
    }
  }

  datatype CopyResult = Child(d: nat) | NoCopy | MissingPage

  /** Every frame of the parent holds what it held. */
  ghost predicate ParentKept(m0: Memory, mem: Memory, owner: map<nat, Slot>) {
    mem.Keys == m0.Keys && forall f :: f in owner && f in m0 ==> mem[f] == m0[f]
  }

  /** Page v of the child: the parent's flags and contents, on the child's own frame. */
  ghost predicate CopiedPage(m0: Memory, pgdir: nat, mem: Memory, d: nat, child: map<nat, Slot>, owner: map<nat, Slot>,
                             v: nat)
  {
    var p, c := Lookup(m0, pgdir, v), Lookup(mem, d, v);
    && Present(p) && Present(c) && Flags(c) == Flags(p) && Addr(p) in m0 && Addr(c) in mem
    && mem[Addr(c)] == m0[Addr(p)]
    && Addr(c) in child && child[Addr(c)] == User(v) && Addr(c) !in owner
  }

  /** The first n pages are copied, the child has no other user page, the kernel part is in
      place, and the two address spaces share no frame. */
  ghost predicate Copied(m0: Memory, pgdir: nat, mem: Memory, d: nat, child: map<nat, Slot>, owner: map<nat, Slot>,
                         n: nat, dataPage: nat)
  {
    && EXTMEM_PAGE < dataPage < PHYSTOP_PAGE
    && (forall v: nat :: v < n ==> CopiedPage(m0, pgdir, mem, d, child, owner, v))
    && (forall v: nat :: n <= v < NENTRIES * NENTRIES ==> Lookup(mem, d, v) == KernelEntry(v, 4, dataPage))
    && (forall f :: f in child ==> f !in owner)
  }

  lemma PoolForget(mem: Memory, freelist: seq<nat>, owner: map<nat, Slot>, first: nat, limit: nat)
    requires Pool(mem, freelist, owner, first, limit)
    ensures Pool(mem, freelist, map[], first, limit)
    ensures forall f :: f in freelist ==> f !in owner
    ensures forall f :: f in owner ==> f !in Holdings(freelist, map[])
  {
  }

  /** Isolation: whatever moves frames between the free list and one directory's holdings
      leaves every other directory, its tables, its pages and its mappings alone. */
  lemma Isolated(m0: Memory, l0: seq<nat>, o0: map<nat, Slot>, mem: Memory, freelist: seq<nat>, o1: map<nat, Slot>,
                 pgdir: nat, owner: map<nat, Slot>, first: nat, limit: nat)
    requires Space(m0, pgdir, owner) && Pool(m0, l0, owner, first, limit) && forall f :: f in o0 ==> f !in owner
    requires Pool(mem, freelist, o1, first, limit) && Kept(m0, l0, o0, mem, freelist, o1)
    ensures Space(mem, pgdir, owner) && Pool(mem, freelist, owner, first, limit) && ParentKept(m0, mem, owner)
    ensures forall v: nat :: v < NENTRIES * NENTRIES ==> Lookup(mem, pgdir, v) == Lookup(m0, pgdir, v)
    ensures forall f :: f in o1 ==> f !in owner
  {
    forall f | f in Holdings(l0, o0) ensures f !in owner {
    }
    forall f | f in freelist || f in o1 ensures f !in owner {
      assert f in Holdings(freelist, o1);
    }
    forall g | g in owner
      ensures g in m0 && mem[g] == m0[g] && |mem[g]| == NENTRIES
    {
      SlotFacts(m0, pgdir, owner, owner[g]);
    }
    SpaceFrame(m0, mem, pgdir, owner);
  }

  /** What the walk over the parent's tables reads is what was mapped at the start. */
  lemma ParentEntry(m0: Memory, mem: Memory, pgdir: nat, owner: map<nat, Slot>, v: nat)
    requires Space(m0, pgdir, owner) && Space(mem, pgdir, owner) && ParentKept(m0, mem, owner) && v < USER_PAGES
    ensures Lookup(mem, pgdir, v) == Lookup(m0, pgdir, v)
    ensures pgdir in mem && |mem[pgdir]| == NENTRIES
    ensures var pt := mem[pgdir][v / NENTRIES];
      && (!Present(pt) ==> !Present(Lookup(m0, pgdir, v)))
      && (Present(pt) ==>
        Addr(pt) in mem && |mem[Addr(pt)]| == NENTRIES && mem[Addr(pt)][v % NENTRIES] == Lookup(m0, pgdir, v))
  {
    forall g | g in owner ensures g in m0 && |mem[g]| == NENTRIES { SlotFacts(m0, pgdir, owner, owner[g]); }
    SpaceFrame(m0, mem, pgdir, owner);
    DirFacts(mem, pgdir, owner);
    if Present(Word(mem, pgdir, v / NENTRIES)) { TableFacts(mem, pgdir, owner, v / NENTRIES); }
  }

  lemma ParentPage(m0: Memory, mem: Memory, pgdir: nat, owner: map<nat, Slot>, v: nat)
    requires Space(m0, pgdir, owner) && ParentKept(m0, mem, owner)
    requires v < USER_PAGES && Present(Lookup(m0, pgdir, v))
    ensures var f := Addr(Lookup(m0, pgdir, v)); f in mem && f in m0 && |mem[f]| == NENTRIES && mem[f] == m0[f]
  {
    SlotFacts(m0, pgdir, owner, User(v));
  }

  lemma CopiedStart(m0: Memory, pgdir: nat, mem: Memory, d: nat, child: map<nat, Slot>, owner: map<nat, Slot>,
                    dataPage: nat)
    requires EXTMEM_PAGE < dataPage < PHYSTOP_PAGE && forall f :: f in child ==> f !in owner
    requires forall v: nat :: v < NENTRIES * NENTRIES ==> Lookup(mem, d, v) == KernelEntry(v, 4, dataPage)
    ensures Copied(m0, pgdir, mem, d, child, owner, 0, dataPage)
  {
  }

  lemma CopiedNext(m0: Memory, pgdir: nat, mem: Memory, d: nat, child: map<nat, Slot>, owner: map<nat, Slot>, i: nat,
                   dataPage: nat)
    requires Copied(m0, pgdir, mem, d, child, owner, i, dataPage) && i < USER_PAGES
    ensures !Present(Lookup(mem, d, i))
  {
    assert Lookup(mem, d, i) == KernelEntry(i, 4, dataPage);
    NoUserEntry(i, 4, dataPage);
  }

  lemma {:induction false} NoUserEntry(v: nat, k: nat, dataPage: nat)
    requires v < USER_PAGES && k <= 4 && EXTMEM_PAGE < dataPage < PHYSTOP_PAGE
    ensures KernelEntry(v, k, dataPage) == 0
  {
    if k > 0 { NoUserEntry(v, k - 1, dataPage); }
  }

  /** The frames of a copy of n pages: the directory and the kernel tables, the pages and their
      tables. */
  function CopyFrames(n: nat): nat {
    KERNEL_FRAMES + n + (n + NENTRIES - 1) / NENTRIES
  }

  lemma CopyFramesMore(i: nat)
    requires i < USER_PAGES
    ensures CopyFrames(i + 1) ==
      CopyFrames(i) + if i / NENTRIES in KernelTables() + TablesOf(0, i) then 1 else 2
    ensures CopyFrames(0) == KERNEL_FRAMES
  {
    hide Sets.Range;
    assert i / NENTRIES < 512;
  }

  lemma CopyFramesGrow(a: nat, b: nat)
    requires a <= b
    ensures CopyFrames(a) <= CopyFrames(b) && CopyFrames(0) == KERNEL_FRAMES
  {
    assert (a + NENTRIES - 1) / NENTRIES <= (b + NENTRIES - 1) / NENTRIES;
  }

  lemma ChildSize(m0: Memory, l0: seq<nat>, pgdir: nat, mem: Memory, freelist: seq<nat>, d: nat, child: map<nat, Slot>,
                  owner: map<nat, Slot>, i: nat, dataPage: nat, first: nat, limit: nat)
    requires Copied(m0, pgdir, mem, d, child, owner, i, dataPage) && Space(mem, d, child) && i <= USER_PAGES
    requires Tabs(mem, d) == KernelTables() + TablesOf(0, i)
    requires Pool(m0, l0, map[], first, limit) && Pool(mem, freelist, child, first, limit)
    requires Kept(m0, l0, map[], mem, freelist, child)
    ensures |l0| == |freelist| + CopyFrames(i)
  {
    hide Space, Pool, Kept, Tabs, TablesOf, KernelTables, CopiedPage;
    forall v: nat | v < USER_PAGES ensures Present(Lookup(mem, d, v)) <==> v < i {
      if v < i {
        CopiedPresent(m0, pgdir, mem, d, child, owner, v);
      } else {
        NoUserEntry(v, 4, dataPage);
      }
    }
    assert Users(mem, d) == Sets.Range(0, i);
    UserTablesApart(i);
    TablesFromZero(i);
    KernelTabsAll(dataPage);
    SpaceSize(mem, d, child);
    KeptSize(m0, l0, map[], mem, freelist, child, first, limit);
  }

  lemma CopiedPresent(m0: Memory, pgdir: nat, mem: Memory, d: nat, child: map<nat, Slot>, owner: map<nat, Slot>, v: nat)
    requires CopiedPage(m0, pgdir, mem, d, child, owner, v)
    ensures Present(Lookup(m0, pgdir, v)) && Present(Lookup(mem, d, v))
  {
  }

  lemma UserTablesApart(i: nat)
    requires i <= USER_PAGES
    ensures |KernelTables() + TablesOf(0, i)| == |KernelTables()| + |TablesOf(0, i)|
  {
    hide Sets.Range;
    assert i > 0 ==> (i - 1) / NENTRIES < 512;
    assert KernelTables() * TablesOf(0, i) == {};
  }

  /** Where the copy stands after i of n pages, and what it still needs. */
  lemma CopyNeeds(m0: Memory, l0: seq<nat>, pgdir: nat, mem: Memory, freelist: seq<nat>, d: nat, child: map<nat, Slot>,
                  owner: map<nat, Slot>, i: nat, n: nat, dataPage: nat, first: nat, limit: nat)
    requires Copied(m0, pgdir, mem, d, child, owner, i, dataPage) && Space(mem, d, child) && i <= n <= USER_PAGES
    requires Tabs(mem, d) == KernelTables() + TablesOf(0, i)
    requires Pool(m0, l0, map[], first, limit) && Pool(mem, freelist, child, first, limit)
    requires Kept(m0, l0, map[], mem, freelist, child)
    ensures var k := Unbroken(m0, pgdir, n);
      && |l0| == |freelist| + CopyFrames(i) && i <= k
      && (i < n ==> (Present(Lookup(m0, pgdir, i)) <==> i < k))
      && (i < k ==> CopyFrames(i) + (if i / NENTRIES in Tabs(mem, d) then 1 else 2) <= CopyFrames(k))
  {
    hide Space, Pool, Kept, Tabs, TablesOf, KernelTables, CopiedPage, Lookup, CopyFrames;
    ChildSize(m0, l0, pgdir, mem, freelist, d, child, owner, i, dataPage, first, limit);
    forall v: nat | v < i ensures Present(Lookup(m0, pgdir, v)) {
      CopiedPresent(m0, pgdir, mem, d, child, owner, v);
    }
    if i < Unbroken(m0, pgdir, n) {
      CopyFramesMore(i);
      CopyFramesGrow(i + 1, Unbroken(m0, pgdir, n));
    }
  }

  lemma CopiedMore(m0: Memory, pgdir: nat, m1: Memory, m2: Memory, d: nat, o1: map<nat, Slot>, o2: map<nat, Slot>,
                   owner: map<nat, Slot>, i: nat, dataPage: nat, f: nat, w: nat)
    requires Copied(m0, pgdir, m1, d, o1, owner, i, dataPage) && Space(m1, d, o1) && i < USER_PAGES
    requires PagesKept(m1, m2, o1) && w == Lookup(m0, pgdir, i) && Present(w)
    requires f in m2 && Addr(w) in m0 && m2[f] == m0[Addr(w)] && f in o2 && o2[f] == User(i)
    requires forall v: nat :: v < NENTRIES * NENTRIES ==>
      Lookup(m2, d, v) == if v == i then MakeEntry(f, Flags(w)) else Lookup(m1, d, v)
    requires (forall g :: g in o1 ==> g in o2 && o2[g] == o1[g]) && (forall g :: g in o2 ==> g !in owner)
    ensures Copied(m0, pgdir, m2, d, o2, owner, i + 1, dataPage)
  {
    EntryFields(f, Flags(w));
    forall v: nat | v < i + 1 ensures CopiedPage(m0, pgdir, m2, d, o2, owner, v) {
      if v < i { assert CopiedPage(m0, pgdir, m1, d, o1, owner, v); }
    }
  }

  datatype MapResult = Done | NoMemory | Remap

  datatype PageResult = Mapped(f: nat) | NoFrame | NoTable(f: nat) | Remapped

  datatype AllocResult = Sized(sz: nat) | OutOfMemory | MappedTwice

  /** Page v is mapped, writable by the user, and all zero. */
  ghost predicate ZeroedPage(mem: Memory, pgdir: nat, v: nat) {
    var w := Lookup(mem, pgdir, v);
    Present(w) && Flags(w) == 1 + PTE_W + PTE_U && Addr(w) in mem && mem[Addr(w)] == Zeros()
  }

  /** The frames that allocuvm asks for before it is done, or before it meets a page that is
      mapped already. */
  ghost function AllocFrames(mem: Memory, pgdir: nat, lo: nat, hi: nat): nat {
    var k := FirstMapped(mem, pgdir, lo, hi);
    FramesToMap(Tabs(mem, pgdir), lo, k) + if k < hi then 1 else 0
  }

  lemma AllocNeeds(mem: Memory, pgdir: nat, lo: nat, a: nat, hi: nat)
    requires lo <= a && (a <= hi || a == lo) && forall v: nat :: lo <= v < a ==> !Present(Lookup(mem, pgdir, v))
    ensures var k := FirstMapped(mem, pgdir, lo, hi);
            var n := FramesToMap(Tabs(mem, pgdir), lo, a);
      && n <= AllocFrames(mem, pgdir, lo, hi)
      && (a >= hi ==> n == AllocFrames(mem, pgdir, lo, hi) && (k == hi || hi <= lo))
      && (a < hi ==> (Present(Lookup(mem, pgdir, a)) <==> k == a))
      && (a < hi && k == a ==> n + 1 == AllocFrames(mem, pgdir, lo, hi))
      && (a < hi && k != a ==>
        n + (if a / NENTRIES in Tabs(mem, pgdir) + TablesOf(lo, a) then 1 else 2) <= AllocFrames(mem, pgdir, lo, hi))
  {
    hide Tabs, TablesOf, FramesToMap, Lookup;
    var k := FirstMapped(mem, pgdir, lo, hi);
    if a < hi {
      FramesGrow(Tabs(mem, pgdir), lo, a, k);
      if k != a {
        FramesMore(Tabs(mem, pgdir), lo, a);
        FramesGrow(Tabs(mem, pgdir), lo, a + 1, k);
      }
    }
  }

  lemma GrownSize(m0: Memory, l0: seq<nat>, o0: map<nat, Slot>, mem: Memory, freelist: seq<nat>, owner: map<nat, Slot>,
                  pgdir: nat, lo: nat, a: nat, first: nat, limit: nat)
    requires Space(m0, pgdir, o0) && Pool(m0, l0, o0, first, limit)
    requires Space(mem, pgdir, owner) && Pool(mem, freelist, owner, first, limit)
    requires Kept(m0, l0, o0, mem, freelist, owner)
    requires lo <= a && (a <= USER_PAGES || a == lo) && Tabs(mem, pgdir) == Tabs(m0, pgdir) + TablesOf(lo, a)
    requires forall v: nat :: v < NENTRIES * NENTRIES && !(lo <= v < a) ==>
      Lookup(mem, pgdir, v) == Lookup(m0, pgdir, v)
    requires forall v: nat :: lo <= v < a ==> ZeroedPage(mem, pgdir, v) && !Present(Lookup(m0, pgdir, v))
    ensures |l0| == |freelist| + FramesToMap(Tabs(m0, pgdir), lo, a)
  {
    hide Space, Pool, Kept, Tabs, TablesOf, Users, Lookup, Zeros, Flags, Addr;
    SpaceSize(m0, pgdir, o0);
    SpaceSize(mem, pgdir, owner);
    KeptSize(m0, l0, o0, mem, freelist, owner, first, limit);
    if a == lo {
      NoTables(lo);
      UsersKept(m0, mem, pgdir);
    } else {
      forall v: nat | lo <= v < a ensures Present(Lookup(mem, pgdir, v)) && !Present(Lookup(m0, pgdir, v)) {
        assert ZeroedPage(mem, pgdir, v);
      }
      UsersMore(m0, mem, pgdir, lo, a);
    }
    var t, u := Tabs(m0, pgdir), TablesOf(lo, a);
    assert t + u == t + (u - t);
  }

  lemma HandOut(mem: Memory, freelist: seq<nat>, owner: map<nat, Slot>, first: nat, limit: nat, pgdir: nat,
                content: seq<nat>)
    requires Space(mem, pgdir, owner) && Pool(mem, freelist, owner, first, limit) && freelist != []
    requires |content| == NENTRIES
    ensures var f := freelist[0];
            var mem' := mem[f := content];
      && Space(mem', pgdir, owner) && Pool(mem', freelist[1..], owner, first, limit)
      && InHand(mem', freelist[1..], owner, first, limit, f) && PagesKept(mem, mem', owner) && mem'.Keys == mem.Keys
      && Tabs(mem', pgdir) == Tabs(mem, pgdir)
      && (forall v: nat :: v < NENTRIES * NENTRIES ==> Lookup(mem', pgdir, v) == Lookup(mem, pgdir, v))
  {
    var f := freelist[0];
    forall g | g in owner ensures |mem[f := content][g]| == NENTRIES { SlotFacts(mem, pgdir, owner, owner[g]); }
    SpaceFrame(mem, mem[f := content], pgdir, owner);
    DirFacts(mem, pgdir, owner);
    TabsKept(mem, f, content, pgdir);
  }

  lemma Placed(m0: Memory, l0: seq<nat>, owner: map<nat, Slot>, m1: Memory, m2: Memory, l2: seq<nat>,
               o2: map<nat, Slot>, content: seq<nat>)
    requires l0 != [] && l0[0] in m0 && l0[0] !in owner && m1 == m0[l0[0] := content]
    requires Taken(m1, l0[1..], owner, m2, l2, o2, {l0[0]}) && PagesKept(m1, m2, owner)
    ensures Kept(m0, l0, owner, m2, l2, o2) && PagesKept(m0, m2, owner)
  {
    assert l0 == [l0[0]] + l0[1..];
  }

  lemma PagesTrans(m0: Memory, m1: Memory, m2: Memory, owner: map<nat, Slot>, o1: map<nat, Slot>)
    requires PagesKept(m0, m1, owner) && PagesKept(m1, m2, o1)
    requires forall f :: f in owner && owner[f].User? ==> f in o1 && o1[f] == owner[f]
    ensures PagesKept(m0, m2, owner)
  {
  }

  lemma ZeroedMore(m1: Memory, m2: Memory, pgdir: nat, o1: map<nat, Slot>, lo: nat, a: nat, f: nat)
    requires Space(m1, pgdir, o1) && PagesKept(m1, m2, o1) && a < USER_PAGES
    requires forall v: nat :: lo <= v < a ==> ZeroedPage(m1, pgdir, v)
    requires forall v: nat :: v < NENTRIES * NENTRIES ==>
      Lookup(m2, pgdir, v) == if v == a then MakeEntry(f, PTE_W + PTE_U) else Lookup(m1, pgdir, v)
    requires f in m2 && m2[f] == Zeros()
    ensures forall v: nat :: lo <= v < a + 1 ==> ZeroedPage(m2, pgdir, v)
  {
    EntryFields(f, PTE_W + PTE_U);
    forall v: nat | lo <= v < a + 1 ensures ZeroedPage(m2, pgdir, v) {
      if v < a {
        assert ZeroedPage(m1, pgdir, v);
        SlotFacts(m1, pgdir, o1, User(v));
      }
    }
  }

  lemma UndonePages(m0: Memory, m2: Memory, m3: Memory, owner: map<nat, Slot>, o2: map<nat, Slot>, o3: map<nat, Slot>,
                    lo: nat, hi: nat)
    requires PagesKept(m0, m2, owner) && PagesKept(m2, m3, o3) && o3 == Dropped(o2, lo, hi)
    requires forall f :: f in owner ==> f in o2 && o2[f] == owner[f]
    ensures PagesKept(m0, m3, Dropped(owner, lo, hi))
  {
  }

  lemma UndoneLookups(m0: Memory, m2: Memory, m3: Memory, pgdir: nat, lo: nat, hi: nat, a: nat)
    requires lo <= a < hi <= USER_PAGES
    requires forall v: nat :: v < NENTRIES * NENTRIES && !(lo <= v < a) ==> Lookup(m2, pgdir, v) == Lookup(m0, pgdir, v)
    requires forall v: nat :: v < NENTRIES * NENTRIES ==> Lookup(m3, pgdir, v) == After(m2, pgdir, lo, hi, v)
    ensures forall v: nat :: v < NENTRIES * NENTRIES && !(lo <= v < hi) ==> Lookup(m3, pgdir, v) == Lookup(m0, pgdir, v)
    ensures forall v: nat :: lo <= v < hi ==> !Present(Lookup(m3, pgdir, v))
  {
    forall v: nat | lo <= v < hi ensures !Present(Lookup(m3, pgdir, v)) {
      assert Lookup(m3, pgdir, v) == After(m2, pgdir, lo, hi, v);
    }
  }

  /** A frame still in hand after other work goes back on the free list. */
  lemma GiveBack(m1: Memory, l1: seq<nat>, o1: map<nat, Slot>, m2: Memory, l2: seq<nat>,
                 m3: Memory, l3: seq<nat>, o3: map<nat, Slot>, pgdir: nat, first: nat, limit: nat, f: nat)
    requires l1 == [f] && l2 == [] && f in m1 && f in m2 && m2 == m1[f := m2[f]] && InHand(m2, l2, o1, first, limit, f)
    requires Kept(m2, l2, o1, m3, l3, o3) && Space(m3, pgdir, o3) && Pool(m3, l3, o3, first, limit)
    ensures first <= f < limit
    ensures var m4 := m3[f := Junk()];
      && Space(m4, pgdir, o3) && Pool(m4, [f] + l3, o3, first, limit) && Kept(m1, l1, o1, m4, [f] + l3, o3)
      && (forall v: nat :: v < NENTRIES * NENTRIES ==> Lookup(m4, pgdir, v) == Lookup(m3, pgdir, v))
  {
    hide Kept, Pool, Holdings, Untouched;
    StillInHand(m2, l2, o1, m3, l3, o3, first, limit, f);
    forall g | g in o3 ensures g in m3 && |m3[f := Junk()][g]| == NENTRIES { SlotFacts(m3, pgdir, o3, o3[g]); }
    SpaceFrame(m3, m3[f := Junk()], pgdir, o3);
    PoolAdd(m3, l3, o3, first, limit, f);
    GiveBackKept(m1, l1, o1, m2, l2, m3, l3, o3, f);
  }

  lemma PoolAdd(mem: Memory, freelist: seq<nat>, owner: map<nat, Slot>, first: nat, limit: nat, f: nat)
    requires Pool(mem, freelist, owner, first, limit) && InHand(mem, freelist, owner, first, limit, f)
    ensures Pool(mem[f := Junk()], [f] + freelist, owner, first, limit)
  {
  }

  lemma GiveBackKept(m1: Memory, l1: seq<nat>, o1: map<nat, Slot>, m2: Memory, l2: seq<nat>,
                     m3: Memory, l3: seq<nat>, o3: map<nat, Slot>, f: nat)
    requires l1 == [f] && l2 == [] && f in m1 && f in m2 && m2 == m1[f := m2[f]] && Kept(m2, l2, o1, m3, l3, o3)
    ensures Kept(m1, l1, o1, m3[f := Junk()], [f] + l3, o3)
  {
    assert Holdings([f] + l3, o3) == Holdings(l3, o3) + {f};
    assert Holdings(l1, o1) == Holdings(l2, o1) + {f};
  }

  lemma GiveBackPages(m0: Memory, m3: Memory, owner: map<nat, Slot>, lo: nat, hi: nat, o1: map<nat, Slot>, m2: Memory,
                      l2: seq<nat>, f: nat, first: nat, limit: nat)
    requires PagesKept(m0, m3, Dropped(owner, lo, hi)) && InHand(m2, l2, o1, first, limit, f)
    requires forall g :: g in owner ==> g in o1
    ensures PagesKept(m0, m3[f := Junk()], Dropped(owner, lo, hi))
  {
  }

  /** One line of kmap: n kernel pages from vpn on, onto frames from frame on. */
  datatype Region = Region(vpn: nat, n: nat, frame: nat, perm: nat)

  ghost predicate RegionOk(r: Region) {
    USER_PAGES <= r.vpn && r.vpn + r.n <= NENTRIES * NENTRIES && r.perm < PGSIZE
  }

  predicate InRegion(r: Region, v: nat) {
    r.vpn <= v < r.vpn + r.n
  }

  function RegionEntry(r: Region, v: nat): nat
    requires r.vpn <= v && r.perm < PGSIZE
  {
    MakeEntry(r.frame + (v - r.vpn), r.perm)
  }

  /** I/O space, kernel text, kernel data and free memory, devices. */
  function Kmap(k: nat, dataPage: nat): (r: Region)
    requires k < 4 && EXTMEM_PAGE < dataPage < PHYSTOP_PAGE
    ensures RegionOk(r)
  {
    if k == 0 then Region(USER_PAGES, EXTMEM_PAGE, 0, PTE_W)
    else if k == 1 then Region(USER_PAGES + EXTMEM_PAGE, dataPage - EXTMEM_PAGE, EXTMEM_PAGE, 0)
    else if k == 2 then Region(USER_PAGES + dataPage, PHYSTOP_PAGE - dataPage, dataPage, PTE_W)
    else Region(DEVSPACE_PAGE, NENTRIES * NENTRIES - DEVSPACE_PAGE, DEVSPACE_PAGE, PTE_W)
  }

  /** The entry of page v once the first k lines of kmap are in place. */
  function KernelEntry(v: nat, k: nat, dataPage: nat): nat
    requires k <= 4 && EXTMEM_PAGE < dataPage < PHYSTOP_PAGE
  {
    if k == 0 then 0
    else if InRegion(Kmap(k - 1, dataPage), v) then RegionEntry(Kmap(k - 1, dataPage), v)
    else KernelEntry(v, k - 1, dataPage)
  }

  /** What the lines of kmap amount to: below KERNBASE nothing; physical memory in order from
      KERNBASE on, the kernel text read-only; the devices on themselves; and nothing for the
      user. */
  lemma KernelMap(v: nat, dataPage: nat)
    requires v < NENTRIES * NENTRIES && EXTMEM_PAGE < dataPage < PHYSTOP_PAGE
    ensures var w := KernelEntry(v, 4, dataPage);
      if USER_PAGES <= v < USER_PAGES + PHYSTOP_PAGE then
        Addr(w) == v - USER_PAGES && Flags(w) == if EXTMEM_PAGE <= v - USER_PAGES < dataPage then 1 else 1 + PTE_W
      else if DEVSPACE_PAGE <= v then Addr(w) == v && Flags(w) == 1 + PTE_W
      else w == 0
  {
    hide MakeEntry, Addr, Flags;
    var f := if v < DEVSPACE_PAGE then v - USER_PAGES else v;
    if f >= 0 {
      EntryFields(f, 0);
      EntryFields(f, PTE_W);
    }
    assert KernelEntry(v, 0, dataPage) == 0;
    assert KernelEntry(v, 1, dataPage) ==
      if InRegion(Kmap(0, dataPage), v) then MakeEntry(f, PTE_W) else 0;
    assert KernelEntry(v, 2, dataPage) ==
      if InRegion(Kmap(1, dataPage), v) then MakeEntry(f, 0) else KernelEntry(v, 1, dataPage);
    assert KernelEntry(v, 3, dataPage) ==
      if InRegion(Kmap(2, dataPage), v) then MakeEntry(f, PTE_W) else KernelEntry(v, 2, dataPage);
  }

  /** The directory takes a frame and so do its kernel tables: 56 for physical memory and 8 for
      devices. */
  const KERNEL_FRAMES := 65

  ghost function KernelTables(): set<nat> {
    Sets.Range(512, 568) + Sets.Range(1016, 1024)
  }

  /** The tables of the first k lines of kmap. */
  ghost function KernelTabs(k: nat, dataPage: nat): set<nat>
    requires k <= 4 && EXTMEM_PAGE < dataPage < PHYSTOP_PAGE
  {
    if k == 0 then {}
    else var r := Kmap(k - 1, dataPage); KernelTabs(k - 1, dataPage) + TablesOf(r.vpn, r.vpn + r.n)
  }

  lemma EndTables()
    ensures TablesOf(USER_PAGES, USER_PAGES + EXTMEM_PAGE) == {512}
    ensures TablesOf(DEVSPACE_PAGE, NENTRIES * NENTRIES) == Sets.Range(1016, 1024)
  {
    hide Sets.Range;
  }

  lemma MemoryTables(dataPage: nat)
    requires EXTMEM_PAGE < dataPage < PHYSTOP_PAGE
    ensures {512} + TablesOf(USER_PAGES + EXTMEM_PAGE, USER_PAGES + dataPage) +
      TablesOf(USER_PAGES + dataPage, USER_PAGES + PHYSTOP_PAGE) == Sets.Range(512, 568)
  {
    hide Sets.Range;
    var a, b := (USER_PAGES + dataPage - 1) / NENTRIES, (USER_PAGES + dataPage) / NENTRIES;
    assert 512 <= a <= b <= a + 1 && b < 568;
  }

  lemma KernelTabsAll(dataPage: nat)
    requires EXTMEM_PAGE < dataPage < PHYSTOP_PAGE
    ensures KernelTabs(4, dataPage) == KernelTables() && |KernelTables()| + 1 == KERNEL_FRAMES
  {
    hide Sets.Range, TablesOf;
    assert Sets.Range(512, 568) * Sets.Range(1016, 1024) == {};
    EndTables();
    MemoryTables(dataPage);
    assert KernelTabs(1, dataPage) == KernelTabs(0, dataPage) + {512};
    assert KernelTabs(2, dataPage) ==
      KernelTabs(1, dataPage) + TablesOf(USER_PAGES + EXTMEM_PAGE, USER_PAGES + dataPage);
    assert KernelTabs(3, dataPage) ==
      KernelTabs(2, dataPage) + TablesOf(USER_PAGES + dataPage, USER_PAGES + PHYSTOP_PAGE);
  }

  lemma {:induction false} KernelTabsGrow(k: nat, n: nat, dataPage: nat)
    requires k <= n <= 4 && EXTMEM_PAGE < dataPage < PHYSTOP_PAGE
    ensures KernelTabs(k, dataPage) <= KernelTabs(n, dataPage)
  {
    hide TablesOf, Kmap;
    if k < n { KernelTabsGrow(k, n - 1, dataPage); }
  }

  lemma NoUsers(mem: Memory, pgdir: nat, k: nat, dataPage: nat)
    requires k <= 4 && EXTMEM_PAGE < dataPage < PHYSTOP_PAGE
    requires forall v: nat :: v < NENTRIES * NENTRIES ==> Lookup(mem, pgdir, v) == KernelEntry(v, k, dataPage)
    ensures Users(mem, pgdir) == {}
  {
    forall v: nat | v < USER_PAGES ensures Lookup(mem, pgdir, v) == 0 {
      NoUserEntry(v, k, dataPage);
    }
  }

  /** A mappages of setupkvm that runs out of memory: every frame there was is a table now, and
      one table is still missing. */
  lemma KernelShort(m0: Memory, l0: seq<nat>, m1: Memory, mem: Memory, pgdir: nat, owner: map<nat, Slot>, k: nat,
                    dataPage: nat, first: nat, limit: nat)
    requires k < 4 && EXTMEM_PAGE < dataPage < PHYSTOP_PAGE
    requires Pool(m0, l0, map[], first, limit) && Pool(mem, [], owner, first, limit) && Space(mem, pgdir, owner)
    requires Kept(m0, l0, map[], mem, [], owner) && Users(mem, pgdir) == Users(m1, pgdir)
    requires forall v: nat :: v < NENTRIES * NENTRIES ==> Lookup(m1, pgdir, v) == KernelEntry(v, k, dataPage)
    requires Tabs(mem, pgdir) < KernelTabs(k + 1, dataPage)
    ensures |l0| < KERNEL_FRAMES
  {
    hide Pool, Space, Kept, Tabs, Users, KernelTabs, KernelTables, KernelEntry;
    KernelTabsAll(dataPage);
    KernelTabsGrow(k + 1, 4, dataPage);
    Sets.ProperSize(Tabs(mem, pgdir), KernelTables());
    NoUsers(m1, pgdir, k, dataPage);
    SpaceSize(mem, pgdir, owner);
    KeptSize(m0, l0, map[], mem, [], owner, first, limit);
  }

  lemma KmapFree(k: nat, dataPage: nat)
    requires k < 4 && EXTMEM_PAGE < dataPage < PHYSTOP_PAGE
    ensures forall v: nat :: Kmap(k, dataPage).vpn <= v < Kmap(k, dataPage).vpn + Kmap(k, dataPage).n ==>
      !Present(KernelEntry(v, k, dataPage))
  {
    forall v: nat | Kmap(k, dataPage).vpn <= v ensures KernelEntry(v, k, dataPage) == 0 {
      KernelAbove(k, k, dataPage, v);
    }
  }

  lemma {:induction false} KernelAbove(k: nat, j: nat, dataPage: nat, v: nat)
    requires j <= k < 4 && EXTMEM_PAGE < dataPage < PHYSTOP_PAGE && Kmap(k, dataPage).vpn <= v
    ensures KernelEntry(v, j, dataPage) == 0
  {
    if j > 0 { KernelAbove(k, j - 1, dataPage, v); }
  }

  lemma TakenNone(m0: Memory, l0: seq<nat>, o0: map<nat, Slot>, m1: Memory, l1: seq<nat>, o1: map<nat, Slot>)
    requires Taken(m0, l0, o0, m1, l1, o1, {})
    ensures Kept(m0, l0, o0, m1, l1, o1)
  {
  }

  lemma NewDir(mem: Memory, freelist: seq<nat>, first: nat, limit: nat, dataPage: nat)
    requires Pool(mem, freelist, map[], first, limit) && freelist != [] && EXTMEM_PAGE < dataPage < PHYSTOP_PAGE
    ensures var f := freelist[0];
            var mem' := mem[f := Zeros()];
      && Space(mem', f, map[f := Dir]) && Pool(mem', freelist[1..], map[f := Dir], first, limit)
      && Kept(mem, freelist, map[], mem', freelist[1..], map[f := Dir])
      && (forall v: nat :: v < NENTRIES * NENTRIES ==> Lookup(mem', f, v) == KernelEntry(v, 0, dataPage))
      && Tabs(mem', f) == {}
  {
    var f := freelist[0];
    var mem' := mem[f := Zeros()];
    assert freelist == [f] + freelist[1..];
    forall s | ValidSlot(s) && s != Dir ensures FrameAt(mem', f, s).None? {
    }
  }

  /** Only the directory and its tables from entry i on are still owned. */
  ghost predicate Tables(pd: seq<nat>, pgdir: nat, o: map<nat, Slot>, i: nat) {
    && |pd| == NENTRIES && pgdir in o && o[pgdir] == Dir
    && (forall k :: i <= k < NENTRIES && Present(pd[k]) ==> Addr(pd[k]) in o && o[Addr(pd[k])] == Tab(k))
    && (forall f :: f in o && f != pgdir ==>
      o[f].Tab? && i <= o[f].i < NENTRIES && Present(pd[o[f].i]) && Addr(pd[o[f].i]) == f)
  }

  lemma TablesLeft(mem: Memory, pgdir: nat, owner: map<nat, Slot>, o: map<nat, Slot>)
    requires Space(mem, pgdir, o) && o == Dropped(owner, PagesFor(0), PagesFor(USER_PAGES * PGSIZE))
    ensures pgdir in mem && |mem[pgdir]| == NENTRIES && Tables(mem[pgdir], pgdir, o, 0)
  {
    DirFacts(mem, pgdir, o);
    var pd := mem[pgdir];
    forall k | 0 <= k < NENTRIES && Present(pd[k]) ensures Addr(pd[k]) in o && o[Addr(pd[k])] == Tab(k) {
      TableFacts(mem, pgdir, o, k);
    }
    forall f | f in o && f != pgdir
      ensures o[f].Tab? && 0 <= o[f].i < NENTRIES && Present(pd[o[f].i]) && Addr(pd[o[f].i]) == f
    {
      assert ValidSlot(o[f]) && FrameAt(mem, pgdir, o[f]) == Some(f);
    }
  }

  lemma TableHere(pd: seq<nat>, pgdir: nat, o: map<nat, Slot>, i: nat)
    requires Tables(pd, pgdir, o, i) && i < NENTRIES && Present(pd[i])
    ensures var t := Addr(pd[i]); t in o && t != pgdir && Tables(pd, pgdir, o - {t}, i + 1)
  {
  }

  lemma TableNone(pd: seq<nat>, pgdir: nat, o: map<nat, Slot>, i: nat)
    requires Tables(pd, pgdir, o, i) && i < NENTRIES && !Present(pd[i])
    ensures Tables(pd, pgdir, o, i + 1)
  {
  }

  lemma OnlyDir(pd: seq<nat>, pgdir: nat, o: map<nat, Slot>)
    requires Tables(pd, pgdir, o, NENTRIES)
    ensures pgdir in o && o - {pgdir} == map[]
  {
  }

  ghost function Least(a: nat, b: nat): nat { if a < b then a else b }

  /** The owner map without the user pages from lo up to hi. */
  ghost function Dropped(owner: map<nat, Slot>, lo: nat, hi: nat): map<nat, Slot> {
    map f | f in owner && !(owner[f].User? && lo <= owner[f].vpn < hi) :: owner[f]
  }

  /** The entry of page v once the pages from lo up to hi have been unmapped. */
  ghost function After(mem: Memory, pgdir: nat, lo: nat, hi: nat, v: nat): nat {
    if lo <= v < hi && Present(Lookup(mem, pgdir, v)) then 0 else Lookup(mem, pgdir, v)
  }

  lemma DropStart(mem: Memory, freelist: seq<nat>, owner: map<nat, Slot>, pgdir: nat, lo: nat, hi: nat)
    ensures Kept(mem, freelist, owner, mem, freelist, owner) && PagesKept(mem, mem, owner)
    ensures owner == Dropped(owner, lo, Least(lo, hi))
    ensures forall v: nat :: Lookup(mem, pgdir, v) == After(mem, pgdir, lo, Least(lo, hi), v)
    ensures hi <= lo ==>
      owner == Dropped(owner, lo, hi) && forall v: nat :: Lookup(mem, pgdir, v) == After(mem, pgdir, lo, hi, v)
  {
  }

  lemma LookupTable(mem: Memory, pgdir: nat, vpn: nat)
    ensures Present(Lookup(mem, pgdir, vpn)) ==> Present(Word(mem, pgdir, vpn / NENTRIES))
  {
  }

  lemma LookupIs(mem: Memory, pgdir: nat, vpn: nat)
    requires Present(Word(mem, pgdir, vpn / NENTRIES))
    requires Addr(Word(mem, pgdir, vpn / NENTRIES)) in mem
    requires vpn % NENTRIES < |mem[Addr(Word(mem, pgdir, vpn / NENTRIES))]|
    ensures Lookup(mem, pgdir, vpn) == mem[Addr(Word(mem, pgdir, vpn / NENTRIES))][vpn % NENTRIES]
  {
  }

  /** A page that is not mapped owns nothing. */
  lemma Unowned(mem: Memory, pgdir: nat, owner: map<nat, Slot>, v: nat)
    requires Space(mem, pgdir, owner) && v < USER_PAGES && !Present(Lookup(mem, pgdir, v))
    ensures forall f :: f in owner ==> owner[f] != User(v)
  {
  }

  lemma SkipPage(m0: Memory, o0: map<nat, Slot>, mem: Memory, pgdir: nat, owner: map<nat, Slot>, lo: nat, hi: nat,
                 a: nat)
    requires Space(mem, pgdir, owner) && lo <= a < hi <= USER_PAGES && !Present(Lookup(mem, pgdir, a))
    requires owner == Dropped(o0, lo, a)
    requires forall v: nat :: v < NENTRIES * NENTRIES ==> Lookup(mem, pgdir, v) == After(m0, pgdir, lo, a, v)
    ensures owner == Dropped(o0, lo, a + 1)
    ensures forall v: nat :: v < NENTRIES * NENTRIES ==> Lookup(mem, pgdir, v) == After(m0, pgdir, lo, a + 1, v)
  {
    Unowned(mem, pgdir, owner, a);
    assert Lookup(mem, pgdir, a) == After(m0, pgdir, lo, a, a);
    forall f | f in Dropped(o0, lo, a) ensures f in Dropped(o0, lo, a + 1) {
      assert f in owner;
    }
  }

  /** Without a table none of the pages up to the next directory entry is mapped. */
  lemma SkipTable(m0: Memory, o0: map<nat, Slot>, mem: Memory, pgdir: nat, owner: map<nat, Slot>, lo: nat, hi: nat,
                  a: nat, next: nat)
    requires Space(mem, pgdir, owner) && lo <= a < hi <= USER_PAGES && !Present(Word(mem, pgdir, a / NENTRIES))
    requires next == (a / NENTRIES + 1) * NENTRIES
    requires owner == Dropped(o0, lo, a)
    requires forall v: nat :: v < NENTRIES * NENTRIES ==> Lookup(mem, pgdir, v) == After(m0, pgdir, lo, a, v)
    ensures a < next
    ensures owner == Dropped(o0, lo, Least(next, hi))
    ensures forall v: nat :: v < NENTRIES * NENTRIES ==>
      Lookup(mem, pgdir, v) == After(m0, pgdir, lo, Least(next, hi), v)
  {
    forall v: nat | a <= v < next && v < USER_PAGES
      ensures !Present(Lookup(mem, pgdir, v)) && Lookup(m0, pgdir, v) == Lookup(mem, pgdir, v)
    {
      assert v / NENTRIES == a / NENTRIES;
      assert Lookup(mem, pgdir, v) == After(m0, pgdir, lo, a, v);
    }
    forall f | f in Dropped(o0, lo, a) ensures f in Dropped(o0, lo, Least(next, hi)) {
      assert f in owner && FrameAt(mem, pgdir, owner[f]) == Some(f);
    }
    assert Dropped(o0, lo, a) == Dropped(o0, lo, Least(next, hi));
  }

  /** An owned frame goes to the free list. */
  lemma PoolFree(mem: Memory, freelist: seq<nat>, owner: map<nat, Slot>, first: nat, limit: nat, f: nat)
    requires Pool(mem, freelist, owner, first, limit) && f in owner
    ensures first <= f < limit
    ensures Pool(mem[f := Junk()], [f] + freelist, owner - {f}, first, limit)
    ensures Kept(mem, freelist, owner, mem[f := Junk()], [f] + freelist, owner - {f})
  {
  }

  lemma DropPage(m0: Memory, l0: seq<nat>, o0: map<nat, Slot>, mem: Memory, freelist: seq<nat>, owner: map<nat, Slot>,
                 pgdir: nat, first: nat, limit: nat, lo: nat, hi: nat, a: nat)
    requires Space(mem, pgdir, owner) && Pool(mem, freelist, owner, first, limit) && lo <= a < hi <= USER_PAGES
    requires Kept(m0, l0, o0, mem, freelist, owner) && PagesKept(m0, mem, owner)
    requires Present(Lookup(mem, pgdir, a)) && owner == Dropped(o0, lo, a)
    requires forall v: nat :: v < NENTRIES * NENTRIES ==> Lookup(mem, pgdir, v) == After(m0, pgdir, lo, a, v)
    ensures var f, t := Addr(Lookup(mem, pgdir, a)), Addr(Word(mem, pgdir, a / NENTRIES));
      && first <= f < limit && t in mem && t != f && a % NENTRIES < |mem[t]|
      && var mem' := Store(mem[f := Junk()], t, a % NENTRIES, 0);
      && Space(mem', pgdir, owner - {f}) && Pool(mem', [f] + freelist, owner - {f}, first, limit)
      && Kept(m0, l0, o0, mem', [f] + freelist, owner - {f}) && PagesKept(m0, mem', owner - {f})
      && owner - {f} == Dropped(o0, lo, a + 1)
      && (forall v: nat :: v < NENTRIES * NENTRIES ==> Lookup(mem', pgdir, v) == After(m0, pgdir, lo, a + 1, v))
  {
    hide Space, Pool, Kept, Dropped;
    var f, t, j := Addr(Lookup(mem, pgdir, a)), Addr(Word(mem, pgdir, a / NENTRIES)), a % NENTRIES;
    UnmapUser(mem, pgdir, owner, a);
    TableFacts(mem, pgdir, owner, a / NENTRIES);
    var m1 := Store(mem, t, j, 0);
    var m2 := Store(mem[f := Junk()], t, j, 0);
    assert m2 == m1[f := Junk()];
    StoredLengths(mem, pgdir, owner, t, j, 0);
    SpaceFrame(m1, m2, pgdir, owner - {f});
    PoolFree(mem, freelist, owner, first, limit, f);
    PoolStore(mem[f := Junk()], [f] + freelist, owner - {f}, first, limit, t, j, 0);
    KeptTrans(m0, l0, o0, mem, freelist, owner, mem[f := Junk()], [f] + freelist, owner - {f});
    KeptTrans(m0, l0, o0, mem[f := Junk()], [f] + freelist, owner - {f}, m2, [f] + freelist, owner - {f});
    DropOwner(o0, owner, lo, a, f, mem, pgdir);
    forall v: nat | v < NENTRIES * NENTRIES ensures Lookup(m2, pgdir, v) == After(m0, pgdir, lo, a + 1, v) {
      assert Lookup(m2, pgdir, v) == Lookup(m1, pgdir, v);
      assert Lookup(mem, pgdir, v) == After(m0, pgdir, lo, a, v);
    }
  }

  lemma DropOwner(o0: map<nat, Slot>, owner: map<nat, Slot>, lo: nat, a: nat, f: nat, mem: Memory, pgdir: nat)
    requires owner == Dropped(o0, lo, a) && f in owner && owner[f] == User(a) && lo <= a && Space(mem, pgdir, owner)
    ensures owner - {f} == Dropped(o0, lo, a + 1)
  {
    forall g | g in owner && g != f ensures owner[g] != User(a) {
      assert FrameAt(mem, pgdir, owner[g]) == Some(g) && FrameAt(mem, pgdir, User(a)) == Some(f);
    }
  }

  /** Writing a table entry does not disturb the pool. */
  lemma PoolStore(mem: Memory, freelist: seq<nat>, owner: map<nat, Slot>, first: nat, limit: nat, t: nat, j: nat,
                  w: nat)
    requires Pool(mem, freelist, owner, first, limit) && t in mem && j < |mem[t]| && t in owner && !owner[t].User?
    ensures Pool(Store(mem, t, j, w), freelist, owner, first, limit)
    ensures Kept(mem, freelist, owner, Store(mem, t, j, w), freelist, owner)
    ensures PagesKept(mem, Store(mem, t, j, w), owner)
  {
  }

  /** A frame that its holder has taken from the free list and not yet placed. */
  ghost predicate InHand(mem: Memory, freelist: seq<nat>, owner: map<nat, Slot>, first: nat, limit: nat, f: nat) {
    f in mem && |mem[f]| == NENTRIES && f !in owner && f !in freelist && first <= f < limit
  }

  /** The frames in extra join the holdings; only frames that were held are written. */
  ghost predicate Taken(mem: Memory, freelist: seq<nat>, owner: map<nat, Slot>,
                        mem': Memory, freelist': seq<nat>, owner': map<nat, Slot>, extra: set<nat>) {
    Holdings(freelist', owner') == Holdings(freelist, owner) + extra && Untouched(mem, mem', Holdings(freelist, owner))
  }

  lemma NothingTaken(mem: Memory, freelist: seq<nat>, owner: map<nat, Slot>)
    ensures PagesKept(mem, mem, owner)
  {
  }

  lemma StillInHand(m0: Memory, l0: seq<nat>, o0: map<nat, Slot>, m1: Memory, l1: seq<nat>, o1: map<nat, Slot>,
                    first: nat, limit: nat, f: nat)
    requires Kept(m0, l0, o0, m1, l1, o1) && InHand(m0, l0, o0, first, limit, f)
    ensures InHand(m1, l1, o1, first, limit, f) && m1[f] == m0[f]
  {
    assert f !in Holdings(l0, o0);
    assert f !in Holdings(l1, o1);
  }

  lemma TakeUser(m0: Memory, l0: seq<nat>, o0: map<nat, Slot>, m1: Memory, l1: seq<nat>, o1: map<nat, Slot>,
                 first: nat, limit: nat, t: nat, vpn: nat, f: nat, perm: nat)
    requires Kept(m0, l0, o0, m1, l1, o1) && SameUsers(o0, o1) && PagesKept(m0, m1, o0)
    requires Pool(m1, l1, o1, first, limit)
    requires InHand(m1, l1, o1, first, limit, f) && perm < PGSIZE
    requires t in m1 && vpn % NENTRIES < |m1[t]| && t in o1 && o1[t].Tab?
    ensures var m2, o2 := Store(m1, t, vpn % NENTRIES, MakeEntry(f, perm)), o1[f := User(vpn)];
      && Taken(m0, l0, o0, m2, l1, o2, {f}) && Pool(m2, l1, o2, first, limit) && PagesKept(m0, m2, o0)
      && m2.Keys == m0.Keys && m2[f] == m1[f]
      && (forall g :: g in o0 ==> g in o2 && o2[g] == o0[g])
      && (forall g :: g in o2 && o2[g].User? && g !in o0 ==> g == f)
  {
  }

  lemma TakeKernel(m0: Memory, l0: seq<nat>, o0: map<nat, Slot>, m1: Memory, l1: seq<nat>, o1: map<nat, Slot>,
                   first: nat, limit: nat, t: nat, j: nat, w: nat)
    requires Kept(m0, l0, o0, m1, l1, o1) && SameUsers(o0, o1) && PagesKept(m0, m1, o0)
    requires Pool(m1, l1, o1, first, limit)
    requires t in m1 && j < |m1[t]| && t in o1 && o1[t].Tab?
    ensures var m2 := Store(m1, t, j, w);
      && Taken(m0, l0, o0, m2, l1, o1, {}) && Pool(m2, l1, o1, first, limit) && PagesKept(m0, m2, o0)
      && m2.Keys == m0.Keys
      && (forall g :: g in o0 ==> g in o1 && o1[g] == o0[g])
      && (forall g :: g in o1 && o1[g].User? ==> g in o0)
  {
  }

  /** The same user pages, in the same frames. */
  ghost predicate SameUsers(owner: map<nat, Slot>, owner': map<nat, Slot>) {
    && (forall f :: f in owner ==> f in owner' && owner'[f] == owner[f])
    && (forall f :: f in owner' && owner'[f].User? ==> f in owner)
  }

  /** The contents of the user pages are as they were. */
  ghost predicate PagesKept(mem: Memory, mem': Memory, owner: map<nat, Slot>) {
    forall f :: f in owner && owner[f].User? && f in mem ==> f in mem' && mem'[f] == mem[f]
  }

  lemma NoChange(mem: Memory, freelist: seq<nat>, owner: map<nat, Slot>)
    ensures Kept(mem, freelist, owner, mem, freelist, owner)
  {
  }

  /** Frames are neither lost nor made. */
  lemma KeptSize(m0: Memory, l0: seq<nat>, o0: map<nat, Slot>, m1: Memory, l1: seq<nat>, o1: map<nat, Slot>,
                 first: nat, limit: nat)
    requires Pool(m0, l0, o0, first, limit) && Pool(m1, l1, o1, first, limit) && Kept(m0, l0, o0, m1, l1, o1)
    ensures |l0| + |o0| == |l1| + |o1|
  {
    HoldingsSize(m0, l0, o0, first, limit);
    HoldingsSize(m1, l1, o1, first, limit);
  }

  lemma HoldingsSize(mem: Memory, freelist: seq<nat>, owner: map<nat, Slot>, first: nat, limit: nat)
    requires Pool(mem, freelist, owner, first, limit)
    ensures |Holdings(freelist, owner)| == |freelist| + |owner|
  {
    Sets.DistinctSize(freelist);
    assert (set f | f in freelist) * owner.Keys == {};
    assert |owner.Keys| == |owner|;
  }

  lemma KeptTrans(m0: Memory, l0: seq<nat>, o0: map<nat, Slot>, m1: Memory, l1: seq<nat>, o1: map<nat, Slot>,
                  m2: Memory, l2: seq<nat>, o2: map<nat, Slot>)
    requires Kept(m0, l0, o0, m1, l1, o1) && Kept(m1, l1, o1, m2, l2, o2)
    ensures Kept(m0, l0, o0, m2, l2, o2)
  {
  }

  lemma TakeFree(mem: Memory, freelist: seq<nat>, owner: map<nat, Slot>, first: nat, limit: nat)
    requires Pool(mem, freelist, owner, first, limit) && freelist != []
    ensures var f := freelist[0];
      f in mem && f !in owner && |mem[f]| == NENTRIES && first <= f < limit && f !in freelist[1..]
  {
  }

  /** The pool after the first free frame became a table. */
  lemma TakenTable(mem: Memory, freelist: seq<nat>, owner: map<nat, Slot>, first: nat, limit: nat, pgdir: nat, i: nat)
    requires Pool(mem, freelist, owner, first, limit) && freelist != [] && Space(mem, pgdir, owner) && i < NENTRIES
    requires pgdir in mem && i < |mem[pgdir]| && freelist[0] != pgdir
    ensures var f := freelist[0];
            var mem' := Store(mem[f := Zeros()], pgdir, i, MakeEntry(f, PTE_W + PTE_U));
      && Pool(mem', freelist[1..], owner[f := Tab(i)], first, limit)
      && Kept(mem, freelist, owner, mem', freelist[1..], owner[f := Tab(i)])
      && SameUsers(owner, owner[f := Tab(i)]) && PagesKept(mem, mem', owner)
  {
    DirFacts(mem, pgdir, owner);
    var f := freelist[0];
    assert freelist == [f] + freelist[1..];
  }
}
