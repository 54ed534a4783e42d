/** Two-level x86 page tables as values: which physical frames a page directory owns.
    A frame holds 1024 words; virtual addresses are given by their page number. */
module PageTable {
  import opened Params

  const NENTRIES := 1024
  const USER_PAGES := 0x8_0000    // pages below KERNBASE
  const PGSIZE := 4096
  const PTE_W := 2
  const PTE_U := 4

  type Memory = map<nat, seq<nat>>

  // Entries: frame number * 4096 + flags, bit 0 is PTE_P

  predicate Present(w: nat) { w % 2 == 1 }

  function Addr(w: nat): nat { w / PGSIZE }

  function Flags(w: nat): nat { w % PGSIZE }

  /** pa | perm | PTE_P */
  function MakeEntry(frame: nat, perm: nat): nat
    requires perm < PGSIZE
  {
    frame * PGSIZE + (if perm % 2 == 1 then perm else perm + 1)
  }

  lemma EntryFields(frame: nat, perm: nat)
    requires perm < PGSIZE
    ensures Present(MakeEntry(frame, perm)) && Addr(MakeEntry(frame, perm)) == frame
    ensures Flags(MakeEntry(frame, perm)) == if perm % 2 == 1 then perm else perm + 1
  {
    var p := if perm % 2 == 1 then perm else perm + 1;
    FrameAndOffset(frame, p, MakeEntry(frame, perm));
    assert MakeEntry(frame, perm) == 2 * (frame * (PGSIZE / 2)) + p;
  }

  /** A frame number and an offset below the page size can be told apart again. */
  lemma FrameAndOffset(frame: nat, p: nat, w: nat)
    requires p < PGSIZE && w == frame * PGSIZE + p
    ensures w / PGSIZE == frame && w % PGSIZE == p
  {
    var q, r := w / PGSIZE, w % PGSIZE;
    assert w == q * PGSIZE + r && 0 <= r < PGSIZE;
    assert (q - frame) * PGSIZE == p - r;
    assert -1 < q - frame < 1;
  }

  function Zeros(): seq<nat> {
    seq(NENTRIES, _ => 0)
  }

  function Store(mem: Memory, f: nat, i: nat, w: nat): Memory
    requires f in mem && i < |mem[f]|
  {
    var page: seq<nat> := mem[f][i := w];
    mem[f := page]
  }

  /** Word i of a frame, 0 if there is none. */
  function Word(mem: Memory, f: nat, i: nat): nat {
    if f in mem && i < |mem[f]| then mem[f][i] else 0
  }

  /** What walkpgdir without alloc finds: the entry for a page, or 0 without a table. */
  function Lookup(mem: Memory, pgdir: nat, vpn: nat): nat {
    var d := Word(mem, pgdir, vpn / NENTRIES);
    if Present(d) then Word(mem, Addr(d), vpn % NENTRIES) else 0
  }

  // Ownership

  /** Why a frame belongs to the address space: the directory, table i, or user page vpn. */
  datatype Slot = Dir | Tab(i: nat) | User(vpn: nat)

  predicate ValidSlot(s: Slot) {
    (s.Tab? ==> s.i < NENTRIES) && (s.User? ==> s.vpn < USER_PAGES)
  }

  /** The frame a slot refers to. */
  function FrameAt(mem: Memory, pgdir: nat, s: Slot): Option<nat> {
    match s
    case Dir => Some(pgdir)
    case Tab(i) => var w := Word(mem, pgdir, i); if Present(w) then Some(Addr(w)) else None
    case User(vpn) => var w := Lookup(mem, pgdir, vpn); if Present(w) then Some(Addr(w)) else None
  }

  /** Every frame that the directory refers to is owned through exactly one slot, and every
      owned frame is referred to. */
  ghost predicate Space(mem: Memory, pgdir: nat, owner: map<nat, Slot>) {
    && (forall s :: ValidSlot(s) && FrameAt(mem, pgdir, s).Some? ==>
          var f := FrameAt(mem, pgdir, s).value; f in mem && |mem[f]| == NENTRIES && f in owner && owner[f] == s)
    && (forall f :: f in owner ==> ValidSlot(owner[f]) && FrameAt(mem, pgdir, owner[f]) == Some(f))
  }

  /** Frames outside changed hold what they held. */
  ghost predicate Untouched(mem: Memory, mem': Memory, changed: set<nat>) {
    mem'.Keys == mem.Keys && forall f :: f in mem && f !in changed ==> mem'[f] == mem[f]
  }

  lemma SlotFacts(mem: Memory, pgdir: nat, owner: map<nat, Slot>, s: Slot)
    requires Space(mem, pgdir, owner) && ValidSlot(s) && FrameAt(mem, pgdir, s).Some?
    ensures var f := FrameAt(mem, pgdir, s).value; f in mem && |mem[f]| == NENTRIES && f in owner && owner[f] == s
  {
  }

  lemma DirFacts(mem: Memory, pgdir: nat, owner: map<nat, Slot>)
    requires Space(mem, pgdir, owner)
    ensures pgdir in mem && |mem[pgdir]| == NENTRIES && pgdir in owner && owner[pgdir] == Dir
  {
    SlotFacts(mem, pgdir, owner, Dir);
  }

  lemma TableFacts(mem: Memory, pgdir: nat, owner: map<nat, Slot>, i: nat)
    requires Space(mem, pgdir, owner) && i < NENTRIES && Present(Word(mem, pgdir, i))
    ensures var t := Addr(Word(mem, pgdir, i));
      t in mem && |mem[t]| == NENTRIES && t in owner && owner[t] == Tab(i) && t != pgdir
  {
    SlotFacts(mem, pgdir, owner, Tab(i));
    DirFacts(mem, pgdir, owner);
  }

  /** From what the slots say to ownership, when one slot gains a fresh frame. */
  lemma SpaceGain(mem: Memory, pgdir: nat, owner: map<nat, Slot>, mem': Memory, s: Slot, f: nat)
    requires Space(mem, pgdir, owner) && ValidSlot(s) && f !in owner && f in mem'
    requires mem'.Keys == mem.Keys && (forall g :: g in owner ==> |mem'[g]| == NENTRIES) && |mem'[f]| == NENTRIES
    requires FrameAt(mem', pgdir, s) == Some(f)
    requires forall t :: ValidSlot(t) && t != s ==> FrameAt(mem', pgdir, t) == FrameAt(mem, pgdir, t)
    requires FrameAt(mem, pgdir, s).None?
    ensures Space(mem', pgdir, owner[f := s])
  {
    var owner' := owner[f := s];
    forall t | ValidSlot(t) && FrameAt(mem', pgdir, t).Some?
      ensures var g := FrameAt(mem', pgdir, t).value;
        g in mem' && |mem'[g]| == NENTRIES && g in owner' && owner'[g] == t
    {
      if t != s { SlotFacts(mem, pgdir, owner, t); }
    }
  }

  /** And when one slot loses its frame. */
  lemma SpaceLose(mem: Memory, pgdir: nat, owner: map<nat, Slot>, mem': Memory, s: Slot, f: nat)
    requires Space(mem, pgdir, owner) && ValidSlot(s) && FrameAt(mem, pgdir, s) == Some(f)
    requires mem'.Keys == mem.Keys && (forall g :: g in owner && g != f ==> |mem'[g]| == NENTRIES)
    requires FrameAt(mem', pgdir, s).None?
    requires forall t :: ValidSlot(t) && t != s ==> FrameAt(mem', pgdir, t) == FrameAt(mem, pgdir, t)
    ensures Space(mem', pgdir, owner - {f})
  {
    SlotFacts(mem, pgdir, owner, s);
    var owner' := owner - {f};
    forall t | ValidSlot(t) && FrameAt(mem', pgdir, t).Some?
      ensures var g := FrameAt(mem', pgdir, t).value;
        g in mem' && |mem'[g]| == NENTRIES && g in owner' && owner'[g] == t
    {
      SlotFacts(mem, pgdir, owner, t);
    }
  }

  /** A write to entry j of table t changes the lookup of that page only. */
  lemma LookupAfter(mem: Memory, pgdir: nat, owner: map<nat, Slot>, i: nat, j: nat, w: nat, vpn: nat)
    requires Space(mem, pgdir, owner) && i < NENTRIES && j < NENTRIES && Present(Word(mem, pgdir, i))
    requires vpn < NENTRIES * NENTRIES
    ensures var t := Addr(Word(mem, pgdir, i));
      && t in mem && |mem[t]| == NENTRIES
      && var mem' := Store(mem, t, j, w);
      && Lookup(mem', pgdir, vpn) == (if vpn == i * NENTRIES + j then w else Lookup(mem, pgdir, vpn))
      && (forall k: nat :: Word(mem', pgdir, k) == Word(mem, pgdir, k))
  {
    TableFacts(mem, pgdir, owner, i);
    var d := vpn / NENTRIES;
    if Present(Word(mem, pgdir, d)) {
      TableFacts(mem, pgdir, owner, d);
    }
  }

  /** Only the directory and the tables matter for what is mapped. */
  lemma SpaceFrame(mem: Memory, mem': Memory, pgdir: nat, owner: map<nat, Slot>)
    requires Space(mem, pgdir, owner) && mem'.Keys == mem.Keys
    requires forall g :: g in owner && !owner[g].User? ==> mem'[g] == mem[g]
    requires forall g :: g in owner ==> |mem'[g]| == NENTRIES
    ensures Space(mem', pgdir, owner)
    ensures forall i: nat :: i < NENTRIES ==> Word(mem', pgdir, i) == Word(mem, pgdir, i)
    ensures forall vpn: nat :: vpn < NENTRIES * NENTRIES ==> Lookup(mem', pgdir, vpn) == Lookup(mem, pgdir, vpn)
  {
    DirFacts(mem, pgdir, owner);
    forall vpn: nat | vpn < NENTRIES * NENTRIES ensures Lookup(mem', pgdir, vpn) == Lookup(mem, pgdir, vpn) {
      if Present(Word(mem, pgdir, vpn / NENTRIES)) { TableFacts(mem, pgdir, owner, vpn / NENTRIES); }
    }
    forall s | ValidSlot(s) ensures FrameAt(mem', pgdir, s) == FrameAt(mem, pgdir, s) {
    }
    forall s | ValidSlot(s) && FrameAt(mem', pgdir, s).Some?
      ensures var f := FrameAt(mem', pgdir, s).value; f in mem' && |mem'[f]| == NENTRIES && f in owner && owner[f] == s
    {
      SlotFacts(mem, pgdir, owner, s);
    }
  }

  /** walkpgdir with alloc: a zeroed frame becomes table i. */
  lemma AddTable(mem: Memory, pgdir: nat, owner: map<nat, Slot>, i: nat, f: nat)
    requires Space(mem, pgdir, owner) && i < NENTRIES && !Present(Word(mem, pgdir, i))
    requires f in mem && f !in owner
    ensures pgdir in mem && i < |mem[pgdir]| && f != pgdir
    ensures var mem' := Store(mem[f := Zeros()], pgdir, i, MakeEntry(f, PTE_W + PTE_U));
      && Space(mem', pgdir, owner[f := Tab(i)]) && Word(mem', pgdir, i) == MakeEntry(f, PTE_W + PTE_U)
      && (forall k: nat :: k < NENTRIES && k != i ==> Word(mem', pgdir, k) == Word(mem, pgdir, k))
      && (forall vpn: nat :: vpn < NENTRIES * NENTRIES ==> Lookup(mem', pgdir, vpn) == Lookup(mem, pgdir, vpn))
  {
    DirFacts(mem, pgdir, owner);
    EntryFields(f, PTE_W + PTE_U);
    var mem' := Store(mem[f := Zeros()], pgdir, i, MakeEntry(f, PTE_W + PTE_U));
    forall vpn: nat | vpn < NENTRIES * NENTRIES ensures Lookup(mem', pgdir, vpn) == Lookup(mem, pgdir, vpn) {
      if Present(Word(mem, pgdir, vpn / NENTRIES)) { TableFacts(mem, pgdir, owner, vpn / NENTRIES); }
    }
    forall g | g in owner ensures g in mem && |mem'[g]| == NENTRIES {
      SlotFacts(mem, pgdir, owner, owner[g]);
    }
    SpaceGain(mem, pgdir, owner, mem', Tab(i), f);
  }

  lemma StoredLengths(mem: Memory, pgdir: nat, owner: map<nat, Slot>, t: nat, j: nat, w: nat)
    requires Space(mem, pgdir, owner) && t in mem && j < |mem[t]|
    ensures Store(mem, t, j, w).Keys == mem.Keys
    ensures forall g :: g in owner ==> g in mem && |Store(mem, t, j, w)[g]| == NENTRIES
  {
    forall g | g in owner ensures g in mem && |mem[g]| == NENTRIES { SlotFacts(mem, pgdir, owner, owner[g]); }
  }

  /** mappages on one user page: a fresh frame becomes that page. */
  lemma MapUser(mem: Memory, pgdir: nat, owner: map<nat, Slot>, vpn: nat, f: nat, perm: nat)
    requires Space(mem, pgdir, owner) && vpn < USER_PAGES && perm < PGSIZE && f in mem && f !in owner
    requires |mem[f]| == NENTRIES
    requires Present(Word(mem, pgdir, vpn / NENTRIES)) && !Present(Lookup(mem, pgdir, vpn))
    ensures var t := Addr(Word(mem, pgdir, vpn / NENTRIES));
      && t in mem && vpn % NENTRIES < |mem[t]| && t in owner && owner[t] == Tab(vpn / NENTRIES)
      && var mem' := Store(mem, t, vpn % NENTRIES, MakeEntry(f, perm));
      && Space(mem', pgdir, owner[f := User(vpn)])
      && (forall v: nat :: v < NENTRIES * NENTRIES ==>
            Lookup(mem', pgdir, v) == if v == vpn then MakeEntry(f, perm) else Lookup(mem, pgdir, v))
  {
    var i, j := vpn / NENTRIES, vpn % NENTRIES;
    TableFacts(mem, pgdir, owner, i);
    var t := Addr(Word(mem, pgdir, i));
    EntryFields(f, perm);
    var mem' := Store(mem, t, j, MakeEntry(f, perm));
    StoredLengths(mem, pgdir, owner, t, j, MakeEntry(f, perm));
    forall v: nat | v < NENTRIES * NENTRIES
      ensures Lookup(mem', pgdir, v) == if v == vpn then MakeEntry(f, perm) else Lookup(mem, pgdir, v)
    {
      LookupAfter(mem, pgdir, owner, i, j, MakeEntry(f, perm), v);
    }
    LookupAfter(mem, pgdir, owner, i, j, MakeEntry(f, perm), 0);
    forall s | ValidSlot(s) && s != User(vpn) ensures FrameAt(mem', pgdir, s) == FrameAt(mem, pgdir, s) {
    }
    SpaceGain(mem, pgdir, owner, mem', User(vpn), f);
  }

  /** mappages on a kernel page: nothing is owned through it. */
  lemma MapKernel(mem: Memory, pgdir: nat, owner: map<nat, Slot>, vpn: nat, w: nat)
    requires Space(mem, pgdir, owner) && USER_PAGES <= vpn < NENTRIES * NENTRIES
    requires Present(Word(mem, pgdir, vpn / NENTRIES))
    ensures var t := Addr(Word(mem, pgdir, vpn / NENTRIES));
      && t in mem && vpn % NENTRIES < |mem[t]| && t in owner && owner[t] == Tab(vpn / NENTRIES)
      && var mem' := Store(mem, t, vpn % NENTRIES, w);
      && Space(mem', pgdir, owner)
      && (forall v: nat :: v < NENTRIES * NENTRIES ==>
        Lookup(mem', pgdir, v) == if v == vpn then w else Lookup(mem, pgdir, v))
  {
    var i, j := vpn / NENTRIES, vpn % NENTRIES;
    TableFacts(mem, pgdir, owner, i);
    var t := Addr(Word(mem, pgdir, i));
    var mem' := Store(mem, t, j, w);
    StoredLengths(mem, pgdir, owner, t, j, w);
    forall v: nat | v < NENTRIES * NENTRIES
      ensures Lookup(mem', pgdir, v) == if v == vpn then w else Lookup(mem, pgdir, v)
    {
      LookupAfter(mem, pgdir, owner, i, j, w, v);
    }
    LookupAfter(mem, pgdir, owner, i, j, w, 0);
    forall s | ValidSlot(s) ensures FrameAt(mem', pgdir, s) == FrameAt(mem, pgdir, s) {
    }
    forall s | ValidSlot(s) && FrameAt(mem', pgdir, s).Some?
      ensures var f := FrameAt(mem', pgdir, s).value; f in mem' && |mem'[f]| == NENTRIES && f in owner && owner[f] == s
    {
      SlotFacts(mem, pgdir, owner, s);
    }
  }

  /** Clearing the entry of a user page gives its frame up. */
  lemma UnmapUser(mem: Memory, pgdir: nat, owner: map<nat, Slot>, vpn: nat)
    requires Space(mem, pgdir, owner) && vpn < USER_PAGES && Present(Lookup(mem, pgdir, vpn))
    ensures var t := Addr(Word(mem, pgdir, vpn / NENTRIES));
            var f := Addr(Lookup(mem, pgdir, vpn));
      && t in mem && vpn % NENTRIES < |mem[t]| && t in owner && t != f && Present(Word(mem, pgdir, vpn / NENTRIES))
      && f in mem && f in owner && owner[f] == User(vpn)
      && var mem' := Store(mem, t, vpn % NENTRIES, 0);
      && Space(mem', pgdir, owner - {f})
      && (forall v: nat :: v < NENTRIES * NENTRIES ==>
        Lookup(mem', pgdir, v) == if v == vpn then 0 else Lookup(mem, pgdir, v))
  {
    var i, j := vpn / NENTRIES, vpn % NENTRIES;
    TableFacts(mem, pgdir, owner, i);
    SlotFacts(mem, pgdir, owner, User(vpn));
    var t, f := Addr(Word(mem, pgdir, i)), Addr(Lookup(mem, pgdir, vpn));
    var mem' := Store(mem, t, j, 0);
    StoredLengths(mem, pgdir, owner, t, j, 0);
    forall v: nat | v < NENTRIES * NENTRIES
      ensures Lookup(mem', pgdir, v) == if v == vpn then 0 else Lookup(mem, pgdir, v)
    {
      LookupAfter(mem, pgdir, owner, i, j, 0, v);
    }
    LookupAfter(mem, pgdir, owner, i, j, 0, 0);
    forall s | ValidSlot(s) && s != User(vpn) ensures FrameAt(mem', pgdir, s) == FrameAt(mem, pgdir, s) {
    }
    SpaceLose(mem, pgdir, owner, mem', User(vpn), f);
  }
}
