/** How many frames an address space takes: one for the directory, one for each table and one
    for each user page. */
module FrameCount {
  import opened PageTable
  import opened Params
  import Sets

  /** The directory entries that point to a table. */
  ghost function Tabs(mem: Memory, pgdir: nat): set<nat> {
    set i: nat | i < NENTRIES && Present(Word(mem, pgdir, i))
  }

  /** The user pages that are mapped. */
  ghost function Users(mem: Memory, pgdir: nat): set<nat> {
    set v: nat | v < USER_PAGES && Present(Lookup(mem, pgdir, v))
  }

  lemma SpaceSize(mem: Memory, pgdir: nat, owner: map<nat, Slot>)
    requires Space(mem, pgdir, owner)
    ensures |owner| == 1 + |Tabs(mem, pgdir)| + |Users(mem, pgdir)|
  {
    var tabs := TabFrames(mem, pgdir, owner);
    var users := UserFrames(mem, pgdir, owner);
    DirFacts(mem, pgdir, owner);
    forall f | f in owner ensures f == pgdir || f in tabs || f in users {
      assert FrameAt(mem, pgdir, owner[f]) == Some(f);
    }
    assert owner.Keys == {pgdir} + tabs + users;
  }

  lemma TabFrames(mem: Memory, pgdir: nat, owner: map<nat, Slot>) returns (fs: set<nat>)
    requires Space(mem, pgdir, owner)
    ensures fs == (set f | f in owner && owner[f].Tab?) && |fs| == |Tabs(mem, pgdir)|
  {
    var m := map f | f in owner && owner[f].Tab? :: owner[f].i;
    forall f, g | f in m && g in m && m[f] == m[g] ensures f == g {
      assert FrameAt(mem, pgdir, owner[f]) == Some(f) && FrameAt(mem, pgdir, owner[g]) == Some(g);
    }
    Sets.InjectiveSize(m);
    forall i | i in Tabs(mem, pgdir) ensures i in m.Values {
      TableFacts(mem, pgdir, owner, i);
      assert Addr(Word(mem, pgdir, i)) in m;
    }
    forall i | i in m.Values ensures i in Tabs(mem, pgdir) {
      var f :| f in m && m[f] == i;
      assert FrameAt(mem, pgdir, owner[f]) == Some(f);
    }
    assert m.Values == Tabs(mem, pgdir);
    fs := m.Keys;
  }

  lemma UserFrames(mem: Memory, pgdir: nat, owner: map<nat, Slot>) returns (fs: set<nat>)
    requires Space(mem, pgdir, owner)
    ensures fs == (set f | f in owner && owner[f].User?) && |fs| == |Users(mem, pgdir)|
  {
    var m := map f | f in owner && owner[f].User? :: owner[f].vpn;
    forall f, g | f in m && g in m && m[f] == m[g] ensures f == g {
      assert FrameAt(mem, pgdir, owner[f]) == Some(f) && FrameAt(mem, pgdir, owner[g]) == Some(g);
    }
    Sets.InjectiveSize(m);
    forall v | v in Users(mem, pgdir) ensures v in m.Values {
      SlotFacts(mem, pgdir, owner, User(v));
      assert Addr(Lookup(mem, pgdir, v)) in m;
    }
    forall v | v in m.Values ensures v in Users(mem, pgdir) {
      var f :| f in m && m[f] == v;
      assert FrameAt(mem, pgdir, owner[f]) == Some(f);
    }
    assert m.Values == Users(mem, pgdir);
    fs := m.Keys;
  }

  // Which tables a range of pages needs

  /** The tables of the pages from lo up to hi. */
  ghost function TablesOf(lo: nat, hi: nat): set<nat> {
    if lo < hi then Sets.Range(lo / NENTRIES, (hi - 1) / NENTRIES + 1) else {}
  }

  lemma TablesMore(lo: nat, hi: nat)
    requires lo <= hi
    ensures TablesOf(lo, hi + 1) == TablesOf(lo, hi) + {hi / NENTRIES}
  {
    if lo < hi {
      var a, b := (hi - 1) / NENTRIES, hi / NENTRIES;
      assert a <= b <= a + 1;
      assert lo / NENTRIES <= a;
    }
  }

  lemma NoTables(lo: nat)
    ensures TablesOf(lo, lo) == {}
  {
  }

  lemma TablesWithin(lo: nat, a: nat, hi: nat)
    requires lo <= a <= hi
    ensures TablesOf(lo, a) <= TablesOf(lo, hi)
  {
    assert a > 0 && hi > 0 ==> (a - 1) / NENTRIES <= (hi - 1) / NENTRIES;
  }

  lemma TablesFromZero(n: nat)
    ensures |TablesOf(0, n)| == (n + NENTRIES - 1) / NENTRIES
  {
    assert n > 0 ==> (n + NENTRIES - 1) / NENTRIES == (n - 1) / NENTRIES + 1;
  }

  /** The frames it takes to map the pages from lo up to hi, with the tables tabs in place. */
  ghost function FramesToMap(tabs: set<nat>, lo: nat, hi: nat): nat {
    if lo < hi then hi - lo + |TablesOf(lo, hi) - tabs| else 0
  }

  lemma FramesMore(tabs: set<nat>, lo: nat, hi: nat)
    requires lo <= hi
    ensures FramesToMap(tabs, lo, hi + 1) ==
      FramesToMap(tabs, lo, hi) + if hi / NENTRIES in tabs + TablesOf(lo, hi) then 1 else 2
  {
    hide TablesOf;
    NoTables(lo);
    TablesMore(lo, hi);
    var i := hi / NENTRIES;
    if i in tabs + TablesOf(lo, hi) {
      assert TablesOf(lo, hi + 1) - tabs == TablesOf(lo, hi) - tabs;
    } else {
      assert TablesOf(lo, hi + 1) - tabs == (TablesOf(lo, hi) - tabs) + {i};
    }
  }

  lemma {:induction false} FramesGrow(tabs: set<nat>, lo: nat, a: nat, hi: nat)
    requires lo <= a <= hi
    ensures FramesToMap(tabs, lo, a) + (hi - a) <= FramesToMap(tabs, lo, hi)
    decreases hi
  {
    hide TablesOf, FramesToMap;
    if a < hi {
      FramesGrow(tabs, lo, a, hi - 1);
      FramesMore(tabs, lo, hi - 1);
    }
  }

  /** The first page from lo on that is mapped, or hi. */
  ghost function FirstMapped(mem: Memory, pgdir: nat, lo: nat, hi: nat): (k: nat)
    ensures lo <= k && (k <= hi || k == lo) && (k < hi ==> Present(Lookup(mem, pgdir, k)))
    ensures forall v: nat :: lo <= v < k ==> !Present(Lookup(mem, pgdir, v))
    decreases hi - lo
  {
    if lo >= hi || Present(Lookup(mem, pgdir, lo)) then lo else FirstMapped(mem, pgdir, lo + 1, hi)
  }

  /** The number of mapped pages in front of the first hole below n. */
  ghost function Unbroken(mem: Memory, pgdir: nat, n: nat): (k: nat)
    ensures k <= n && (k < n ==> !Present(Lookup(mem, pgdir, k)))
    ensures forall v: nat :: v < k ==> Present(Lookup(mem, pgdir, v))
  {
    if n == 0 then 0
    else if Unbroken(mem, pgdir, n - 1) < n - 1 || !Present(Lookup(mem, pgdir, n - 1)) then Unbroken(mem, pgdir, n - 1)
    else n
  }

  // How the sets change

  lemma TabsAdded(mem: Memory, mem': Memory, pgdir: nat, i: nat)
    requires i < NENTRIES && Present(Word(mem', pgdir, i))
    requires forall k: nat :: k < NENTRIES && k != i ==> Word(mem', pgdir, k) == Word(mem, pgdir, k)
    ensures Tabs(mem', pgdir) == Tabs(mem, pgdir) + {i}
  {
  }

  lemma TabsHas(mem: Memory, pgdir: nat, i: nat)
    requires i < NENTRIES
    ensures i in Tabs(mem, pgdir) <==> Present(Word(mem, pgdir, i))
  {
  }

  lemma TabsKept(mem: Memory, f: nat, page: seq<nat>, pgdir: nat)
    requires f != pgdir
    ensures Tabs(mem[f := page], pgdir) == Tabs(mem, pgdir)
  {
    forall i: nat ensures Word(mem[f := page], pgdir, i) == Word(mem, pgdir, i) {
    }
  }

  lemma TabsStored(mem: Memory, t: nat, j: nat, w: nat, pgdir: nat)
    requires t in mem && j < |mem[t]| && t != pgdir
    ensures Tabs(Store(mem, t, j, w), pgdir) == Tabs(mem, pgdir)
  {
    TabsKept(mem, t, mem[t][j := w], pgdir);
  }

  lemma UsersKept(mem: Memory, mem': Memory, pgdir: nat)
    requires forall v: nat :: v < USER_PAGES ==> Lookup(mem', pgdir, v) == Lookup(mem, pgdir, v)
    ensures Users(mem', pgdir) == Users(mem, pgdir)
  {
  }

  lemma UsersMore(mem: Memory, mem': Memory, pgdir: nat, lo: nat, hi: nat)
    requires lo <= hi <= USER_PAGES
    requires forall v: nat :: v < USER_PAGES && !(lo <= v < hi) ==> Lookup(mem', pgdir, v) == Lookup(mem, pgdir, v)
    requires forall v: nat :: lo <= v < hi ==> Present(Lookup(mem', pgdir, v)) && !Present(Lookup(mem, pgdir, v))
    ensures |Users(mem', pgdir)| == |Users(mem, pgdir)| + (hi - lo)
  {
    assert Users(mem', pgdir) == Users(mem, pgdir) + Sets.Range(lo, hi);
    assert Users(mem, pgdir) * Sets.Range(lo, hi) == {};
  }
}
