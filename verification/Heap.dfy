/** The user-level allocator of umalloc.c.  Addresses and sizes count header units.  The
    free list is a circle of headers in address order that always contains `base`. */
module Heap {
  import opened Params

  const MIN_UNITS := 4096
  const HEADER_BYTES := 8

  // The free ring

  /** The address after position i on the circle. */
  ghost function After(ring: seq<nat>, i: nat): nat
    requires i < |ring|
  {
    if i + 1 < |ring| then ring[i + 1] else ring[0]
  }

  ghost predicate LinkAt(ptr: map<nat, nat>, ring: seq<nat>, i: nat)
    requires i < |ring|
  {
    ring[i] in ptr && ptr[ring[i]] == After(ring, i)
  }

  ghost predicate Linked(ptr: map<nat, nat>, ring: seq<nat>) {
    forall i: nat :: i < |ring| ==> LinkAt(ptr, ring, i)
  }

  /** In address order, disjoint, and with a gap after every block. */
  ghost predicate Spaced(size: map<nat, nat>, ring: seq<nat>) {
    && (forall i :: 0 <= i < |ring| ==> ring[i] in size)
    && (forall i, j :: 0 <= i < j < |ring| ==> ring[i] + size[ring[i]] < ring[j])
  }

  ghost predicate FreeOk(ptr: map<nat, nat>, size: map<nat, nat>, ring: seq<nat>, base: nat) {
    && |ring| >= 1 && ring[0] == base && base > 0
    && Linked(ptr, ring) && Spaced(size, ring)
    && size[base] == 0 && (forall i :: 1 <= i < |ring| ==> size[ring[i]] >= 1)
  }

  /** Two blocks share no unit. */
  ghost predicate Apart(a: nat, m: nat, b: nat, n: nat) {
    a + m <= b || b + n <= a
  }

  /** Live blocks overlap neither each other nor free ones and lie between base and brk. */
  ghost predicate LiveOk(size: map<nat, nat>, ring: seq<nat>, live: map<nat, nat>, base: nat, brk: nat) {
    && (forall a :: a in live ==> a in size && size[a] == live[a] >= 1 && base < a && a + live[a] <= brk && a !in ring)
    && (forall a, b :: a in live && b in live && a != b ==> Apart(a, live[a], b, live[b]))
    && (forall a, i :: a in live && 0 <= i < |ring| ==> ring[i] in size && Apart(a, live[a], ring[i], size[ring[i]]))
    && (forall i :: 0 <= i < |ring| ==> ring[i] in size && ring[i] + size[ring[i]] <= brk)
  }

  // Units

  ghost function FreeUnits(size: map<nat, nat>, ring: seq<nat>): nat
    requires forall i :: 0 <= i < |ring| ==> ring[i] in size
  {
    if ring == [] then 0 else FreeUnits(size, ring[..|ring| - 1]) + size[ring[|ring| - 1]]
  }

  ghost function LiveUnits(live: map<nat, nat>): nat {
    if live == map[] then 0 else var a :| a in live; live[a] + LiveUnits(live - {a})
  }

  lemma {:induction false} LiveRemove(live: map<nat, nat>, a: nat)
    requires a in live
    ensures LiveUnits(live) == live[a] + LiveUnits(live - {a})
  {
    var b :| b in live && LiveUnits(live) == live[b] + LiveUnits(live - {b});
    if a != b {
      LiveRemove(live - {b}, a);
      LiveRemove(live - {a}, b);
      assert live - {b} - {a} == live - {a} - {b};
    }
  }

  lemma LiveAdd(live: map<nat, nat>, a: nat, n: nat)
    requires a !in live
    ensures LiveUnits(live[a := n]) == n + LiveUnits(live)
  {
    LiveRemove(live[a := n], a);
    assert live[a := n] - {a} == live;
  }

  lemma {:induction false} FreeUnitsSame(size: map<nat, nat>, size': map<nat, nat>, ring: seq<nat>)
    requires forall i :: 0 <= i < |ring| ==> ring[i] in size && ring[i] in size' && size'[ring[i]] == size[ring[i]]
    ensures FreeUnits(size', ring) == FreeUnits(size, ring)
  {
    if ring != [] {
      FreeUnitsSame(size, size', ring[..|ring| - 1]);
    }
  }

  lemma {:induction false} FreeUnitsConcat(size: map<nat, nat>, a: seq<nat>, b: seq<nat>)
    requires forall i :: 0 <= i < |a| ==> a[i] in size
    requires forall i :: 0 <= i < |b| ==> b[i] in size
    ensures FreeUnits(size, a + b) == FreeUnits(size, a) + FreeUnits(size, b)
  {
    if b == [] {
      assert a + b == a;
    } else {
      assert (a + b)[..|a + b| - 1] == a + b[..|b| - 1];
      FreeUnitsConcat(size, a, b[..|b| - 1]);
    }
  }

  // What free does to the ring

  /** bp lies in the gap after position t. */
  ghost predicate Gap(ring: seq<nat>, t: nat, bp: nat) {
    t < |ring| && ring[t] < bp && (t + 1 < |ring| ==> bp < ring[t + 1])
  }

  ghost function First(ring: seq<nat>, s: nat): nat
    requires 1 <= |ring| && s <= |ring|
  {
    if s < |ring| then ring[s] else ring[0]
  }

  lemma Increasing(size: map<nat, nat>, ring: seq<nat>)
    requires Spaced(size, ring)
    ensures forall i, j :: 0 <= i < j < |ring| ==> ring[i] < ring[j]
  {
  }

  /** The block takes its place between position t and position s. */
  lemma LinkInsert(ptr: map<nat, nat>, ring: seq<nat>, t: nat, s: nat, bp: nat)
    requires Linked(ptr, ring) && t < s <= |ring| && bp !in ring
    requires forall i, j :: 0 <= i < j < |ring| ==> ring[i] < ring[j]
    ensures Linked(ptr[bp := First(ring, s)][ring[t] := bp], ring[..t + 1] + [bp] + ring[s..])
  {
    var ring' := ring[..t + 1] + [bp] + ring[s..];
    var ptr' := ptr[bp := First(ring, s)][ring[t] := bp];
    forall i: nat | i < |ring'| ensures LinkAt(ptr', ring', i) {
      if i <= t {
        assert LinkAt(ptr, ring, i);
      } else if i > t + 1 {
        assert LinkAt(ptr, ring, i - (t + 2) + s);
      }
    }
  }

  /** The block melts into position t, whose successor becomes position s. */
  lemma LinkMerge(ptr: map<nat, nat>, ring: seq<nat>, t: nat, s: nat, bp: nat)
    requires Linked(ptr, ring) && t < s <= |ring| && bp !in ring
    requires forall i, j :: 0 <= i < j < |ring| ==> ring[i] < ring[j]
    ensures Linked(ptr[bp := First(ring, s)][ring[t] := First(ring, s)], ring[..t + 1] + ring[s..])
  {
    var ring' := ring[..t + 1] + ring[s..];
    var ptr' := ptr[bp := First(ring, s)][ring[t] := First(ring, s)];
    forall i: nat | i < |ring'| ensures LinkAt(ptr', ring', i) {
      assert LinkAt(ptr, ring, if i <= t then i else i - (t + 1) + s);
    }
  }

  lemma SpacedInsert(size: map<nat, nat>, ring: seq<nat>, t: nat, s: nat, bp: nat, n: nat)
    requires Spaced(size, ring) && t < s <= |ring| && bp !in ring && ring[t] + size[ring[t]] < bp
    requires forall i :: s <= i < |ring| ==> bp + n < ring[i]
    ensures Spaced(size[bp := n], ring[..t + 1] + [bp] + ring[s..])
  {
    var ring' := ring[..t + 1] + [bp] + ring[s..];
    var size' := size[bp := n];
    forall i, j | 0 <= i < j < |ring'| ensures ring'[i] in size' && ring'[i] + size'[ring'[i]] < ring'[j] {
      var a := if i <= t then i else if i == t + 1 then t else i - (t + 2) + s;
      var b := if j <= t then j else if j == t + 1 then t else j - (t + 2) + s;
      assert i != t + 1 ==> ring'[i] == ring[a];
      assert j != t + 1 ==> ring'[j] == ring[b];
      if i < t && j == t + 1 { assert ring[i] + size[ring[i]] < ring[t]; }
    }
  }

  lemma SpacedMerge(size: map<nat, nat>, ring: seq<nat>, t: nat, s: nat, n: nat)
    requires Spaced(size, ring) && t < s <= |ring|
    requires forall i :: s <= i < |ring| ==> ring[t] + n < ring[i]
    ensures Spaced(size[ring[t] := n], ring[..t + 1] + ring[s..])
  {
    var ring' := ring[..t + 1] + ring[s..];
    var size' := size[ring[t] := n];
    forall i, j | 0 <= i < j < |ring'| ensures ring'[i] in size' && ring'[i] + size'[ring'[i]] < ring'[j] {
      var a := if i <= t then i else i - (t + 1) + s;
      var b := if j <= t then j else j - (t + 1) + s;
      assert ring'[i] == ring[a] && ring'[j] == ring[b] && a < b;
    }
  }

  ghost predicate HeapOk(ptr: map<nat, nat>, size: map<nat, nat>, ring: seq<nat>, live: map<nat, nat>, base: nat,
                         brk: nat)
  {
    FreeOk(ptr, size, ring, base) && LiveOk(size, ring, live, base, brk)
  }

  /** The free block right above bp touches it. */
  ghost predicate Upper(size: map<nat, nat>, ring: seq<nat>, t: nat, bp: nat)
    requires bp in size
  {
    t + 1 < |ring| && bp + size[bp] == ring[t + 1]
  }

  /** Everything above the gap starts strictly after bp once it has absorbed its upper neighbour. */
  lemma UpperFacts(ptr: map<nat, nat>, size: map<nat, nat>, ring: seq<nat>, live: map<nat, nat>, base: nat, brk: nat,
                   t: nat, bp: nat)
    requires HeapOk(ptr, size, ring, live, base, brk) && bp in live && Gap(ring, t, bp)
    ensures var up := Upper(size, ring, t, bp);
            var s, n := if up then t + 2 else t + 1, size[bp] + (if up then size[ring[t + 1]] else 0);
      && s <= |ring| && bp + n <= brk && n >= 1
      && (forall i :: s <= i < |ring| ==> bp + n < ring[i])
      && (forall a :: a in live && a != bp ==> Apart(a, live[a], bp, n))
    ensures bp !in ring && ring[t] + size[ring[t]] <= bp
  {
    hide Linked;
    assert Apart(bp, live[bp], ring[t], size[ring[t]]);
    if t + 1 < |ring| {
      assert Apart(bp, live[bp], ring[t + 1], size[ring[t + 1]]);
    }
    if Upper(size, ring, t, bp) {
      forall a | a in live && a != bp ensures Apart(a, live[a], bp, size[bp] + size[ring[t + 1]]) {
        assert Apart(a, live[a], bp, live[bp]) && Apart(a, live[a], ring[t + 1], size[ring[t + 1]]);
      }
    }
  }

  /** The units at the positions below and from s on, and at most one position skipped. */
  lemma UnitsAround(size: map<nat, nat>, ring: seq<nat>, t: nat, s: nat)
    requires forall i :: 0 <= i < |ring| ==> ring[i] in size
    requires t < |ring| && t < s <= t + 2 && s <= |ring|
    ensures FreeUnits(size, ring) ==
      FreeUnits(size, ring[..t]) + size[ring[t]] + (if s == t + 2 then size[ring[t + 1]] else 0) +
      FreeUnits(size, ring[s..])
  {
    assert ring == ring[..s] + ring[s..];
    FreeUnitsConcat(size, ring[..s], ring[s..]);
    assert ring[..t + 1][..t] == ring[..t];
    if s == t + 2 { assert ring[..s][..t + 1] == ring[..t + 1]; }
  }

  lemma UnitsInsert(size: map<nat, nat>, ring: seq<nat>, t: nat, s: nat, bp: nat, n: nat)
    requires forall i :: 0 <= i < |ring| ==> ring[i] in size
    requires t < |ring| && t < s <= t + 2 && s <= |ring| && bp !in ring
    ensures var ring' := ring[..t + 1] + [bp] + ring[s..];
      && (forall i :: 0 <= i < |ring'| ==> ring'[i] in size[bp := n])
      && FreeUnits(size[bp := n], ring') == FreeUnits(size, ring) + n - (if s == t + 2 then size[ring[t + 1]] else 0)
  {
    var size', ring' := size[bp := n], ring[..t + 1] + [bp] + ring[s..];
    UnitsAround(size, ring, t, s);
    FreeUnitsSame(size, size', ring[..t]);
    FreeUnitsSame(size, size', ring[s..]);
    FreeUnitsConcat(size', ring[..t + 1] + [bp], ring[s..]);
    assert (ring[..t + 1] + [bp])[..t + 1] == ring[..t + 1] && ring[..t + 1][..t] == ring[..t];
  }

  lemma UnitsMerge(size: map<nat, nat>, ring: seq<nat>, t: nat, s: nat, bp: nat, n: nat)
    requires forall i :: 0 <= i < |ring| ==> ring[i] in size
    requires forall i, j :: 0 <= i < j < |ring| ==> ring[i] < ring[j]
    requires t < |ring| && t < s <= t + 2 && s <= |ring| && bp !in ring
    ensures var ring' := ring[..t + 1] + ring[s..];
            var size' := size[bp := n][ring[t] := size[ring[t]] + n];
      && (forall i :: 0 <= i < |ring'| ==> ring'[i] in size')
      && FreeUnits(size', ring') == FreeUnits(size, ring) + n - (if s == t + 2 then size[ring[t + 1]] else 0)
  {
    var size', ring' := size[bp := n][ring[t] := size[ring[t]] + n], ring[..t + 1] + ring[s..];
    UnitsAround(size, ring, t, s);
    FreeUnitsSame(size, size', ring[..t]);
    FreeUnitsSame(size, size', ring[s..]);
    FreeUnitsConcat(size', ring[..t + 1], ring[s..]);
    assert ring[..t + 1][..t] == ring[..t];
  }

  /** free when the block below does not touch bp. */
  lemma FreeInsert(ptr: map<nat, nat>, size: map<nat, nat>, ring: seq<nat>, live: map<nat, nat>, base: nat, brk: nat,
                   t: nat, bp: nat, s: nat, n: nat)
    requires HeapOk(ptr, size, ring, live, base, brk) && bp in live && Gap(ring, t, bp)
    requires s == (if Upper(size, ring, t, bp) then t + 2 else t + 1)
    requires n == size[bp] + (if Upper(size, ring, t, bp) then size[ring[t + 1]] else 0)
    requires ring[t] + size[ring[t]] != bp
    ensures s <= |ring|
    ensures var ring' := ring[..t + 1] + [bp] + ring[s..];
      && HeapOk(ptr[bp := First(ring, s)][ring[t] := bp], size[bp := n], ring', live - {bp}, base, brk)
      && FreeUnits(size[bp := n], ring') == FreeUnits(size, ring) + live[bp]
  {
    hide Linked, FreeUnits;
    UpperFacts(ptr, size, ring, live, base, brk, t, bp);
    Increasing(size, ring);
    LinkInsert(ptr, ring, t, s, bp);
    SpacedInsert(size, ring, t, s, bp, n);
    InsertLive(size, ring, live, base, brk, t, bp, s, n);
    UnitsInsert(size, ring, t, s, bp, n);
    InsertSizes(size, ring, t, bp, s, n);
  }

  lemma InsertSizes(size: map<nat, nat>, ring: seq<nat>, t: nat, bp: nat, s: nat, n: nat)
    requires |ring| >= 1 && t < s <= |ring| && bp !in ring && n >= 1
    requires forall i :: 0 <= i < |ring| ==> ring[i] in size
    requires forall i :: 1 <= i < |ring| ==> size[ring[i]] >= 1
    ensures var ring' := ring[..t + 1] + [bp] + ring[s..];
            var size' := size[bp := n];
      && ring'[0] == ring[0] && size'[ring[0]] == size[ring[0]]
      && (forall i :: 1 <= i < |ring'| ==> ring'[i] in size' && size'[ring'[i]] >= 1)
  {
    var ring' := ring[..t + 1] + [bp] + ring[s..];
    forall i | 1 <= i < |ring'| ensures ring'[i] in size[bp := n] && size[bp := n][ring'[i]] >= 1 {
      assert i != t + 1 ==> ring'[i] == ring[if i <= t then i else i - (t + 2) + s];
    }
  }

  lemma InsertLive(size: map<nat, nat>, ring: seq<nat>, live: map<nat, nat>, base: nat, brk: nat, t: nat, bp: nat,
                   s: nat, n: nat)
    requires LiveOk(size, ring, live, base, brk) && bp in live && t < s <= |ring| && bp !in ring && bp + n <= brk
    requires forall a :: a in live && a != bp ==> Apart(a, live[a], bp, n)
    ensures LiveOk(size[bp := n], ring[..t + 1] + [bp] + ring[s..], live - {bp}, base, brk)
  {
    var ring', size', live' := ring[..t + 1] + [bp] + ring[s..], size[bp := n], live - {bp};
    forall i | 0 <= i < |ring'| ensures ring'[i] == bp || (ring'[i] in ring && ring'[i] != bp) {
      assert i != t + 1 ==> ring'[i] == ring[if i <= t then i else i - (t + 2) + s];
    }
    forall a, i | a in live' && 0 <= i < |ring'|
      ensures ring'[i] in size' && Apart(a, live'[a], ring'[i], size'[ring'[i]])
    {
      if ring'[i] != bp {
        var j :| 0 <= j < |ring| && ring[j] == ring'[i];
        assert Apart(a, live[a], ring[j], size[ring[j]]);
      }
    }
    forall i | 0 <= i < |ring'| ensures ring'[i] in size' && ring'[i] + size'[ring'[i]] <= brk {
      if ring'[i] != bp {
        var j :| 0 <= j < |ring| && ring[j] == ring'[i];
      }
    }
  }

  /** free when the block below ends exactly at bp. */
  lemma FreeMerge(ptr: map<nat, nat>, size: map<nat, nat>, ring: seq<nat>, live: map<nat, nat>, base: nat, brk: nat,
                  t: nat, bp: nat, s: nat, n: nat)
    requires HeapOk(ptr, size, ring, live, base, brk) && bp in live && Gap(ring, t, bp)
    requires s == (if Upper(size, ring, t, bp) then t + 2 else t + 1)
    requires n == size[bp] + (if Upper(size, ring, t, bp) then size[ring[t + 1]] else 0)
    requires ring[t] + size[ring[t]] == bp
    ensures s <= |ring|
    ensures var ring' := ring[..t + 1] + ring[s..];
            var size' := size[bp := n][ring[t] := size[ring[t]] + n];
      && HeapOk(ptr[bp := First(ring, s)][ring[t] := First(ring, s)], size', ring', live - {bp}, base, brk)
      && FreeUnits(size', ring') == FreeUnits(size, ring) + live[bp]
  {
    hide Linked, FreeUnits;
    UpperFacts(ptr, size, ring, live, base, brk, t, bp);
    Increasing(size, ring);
    LinkMerge(ptr, ring, t, s, bp);
    SpacedMerge(size[bp := n], ring, t, s, size[ring[t]] + n);
    MergeLive(size, ring, live, base, brk, t, bp, s, n);
    UnitsMerge(size, ring, t, s, bp, n);
    MergeSizes(size, ring, t, bp, s, n);
  }

  lemma MergeSizes(size: map<nat, nat>, ring: seq<nat>, t: nat, bp: nat, s: nat, n: nat)
    requires |ring| >= 1 && 0 < t < s <= |ring| && bp !in ring && n >= 1
    requires forall i, j :: 0 <= i < j < |ring| ==> ring[i] < ring[j]
    requires forall i :: 0 <= i < |ring| ==> ring[i] in size
    requires forall i :: 1 <= i < |ring| ==> size[ring[i]] >= 1
    ensures var ring' := ring[..t + 1] + ring[s..];
            var size' := size[bp := n][ring[t] := size[ring[t]] + n];
      && ring'[0] == ring[0] && size'[ring[0]] == size[ring[0]]
      && (forall i :: 1 <= i < |ring'| ==> ring'[i] in size' && size'[ring'[i]] >= 1)
  {
    var ring' := ring[..t + 1] + ring[s..];
    var size' := size[bp := n][ring[t] := size[ring[t]] + n];
    forall i | 1 <= i < |ring'| ensures ring'[i] in size' && size'[ring'[i]] >= 1 {
      assert ring'[i] == ring[if i <= t then i else i - (t + 1) + s];
    }
  }

  lemma MergeLive(size: map<nat, nat>, ring: seq<nat>, live: map<nat, nat>, base: nat, brk: nat, t: nat, bp: nat,
                  s: nat, n: nat)
    requires LiveOk(size, ring, live, base, brk) && bp in live && t < s <= |ring| && bp !in ring && bp + n <= brk
    requires ring[t] in size && ring[t] + size[ring[t]] == bp
    requires forall i, j :: 0 <= i < j < |ring| ==> ring[i] < ring[j]
    requires forall a :: a in live && a != bp ==> Apart(a, live[a], bp, n)
    ensures LiveOk(size[bp := n][ring[t] := size[ring[t]] + n], ring[..t + 1] + ring[s..], live - {bp}, base, brk)
  {
    var ring', size', live' := ring[..t + 1] + ring[s..], size[bp := n][ring[t] := size[ring[t]] + n], live - {bp};
    forall a, i | a in live' && 0 <= i < |ring'|
      ensures ring'[i] in size' && Apart(a, live'[a], ring'[i], size'[ring'[i]])
    {
      var j := if i <= t then i else i - (t + 1) + s;
      assert ring'[i] == ring[j];
      assert Apart(a, live[a], ring[j], size[ring[j]]) && Apart(a, live[a], bp, n);
    }
    forall i | 0 <= i < |ring'| ensures ring'[i] in size' && ring'[i] + size'[ring'[i]] <= brk {
      assert ring'[i] == ring[if i <= t then i else i - (t + 1) + s];
    }
  }

  // What malloc does to the ring

  /** A block of exactly the right size leaves the ring. */
  lemma TakeWhole(ptr: map<nat, nat>, size: map<nat, nat>, ring: seq<nat>, live: map<nat, nat>, base: nat, brk: nat,
                  g: nat)
    requires HeapOk(ptr, size, ring, live, base, brk) && 1 <= g < |ring|
    ensures ring[g] in ptr && ring[g] !in live
    ensures var p := ring[g];
            var ring' := ring[..g] + ring[g + 1..];
      && HeapOk(ptr[ring[g - 1] := ptr[p]], size, ring', live[p := size[p]], base, brk)
      && FreeUnits(size, ring') + size[p] == FreeUnits(size, ring)
  {
    assert LinkAt(ptr, ring, g);
    hide Linked, LinkAt, FreeUnits;
    Increasing(size, ring);
    UnlinkAt(ptr, ring, g);
    UnitsRemove(size, ring, g);
    TakeLive(size, ring, live, base, brk, g);
    SpacedRemove(size, ring, g);
  }

  lemma SpacedRemove(size: map<nat, nat>, ring: seq<nat>, g: nat)
    requires Spaced(size, ring) && 1 <= g < |ring| && forall i :: 1 <= i < |ring| ==> size[ring[i]] >= 1
    ensures var ring' := ring[..g] + ring[g + 1..];
      Spaced(size, ring') && ring'[0] == ring[0] && forall i :: 1 <= i < |ring'| ==> size[ring'[i]] >= 1
  {
    var ring' := ring[..g] + ring[g + 1..];
    forall i | 0 <= i < |ring'| ensures ring'[i] == ring[if i < g then i else i + 1] {
    }
  }

  lemma UnitsRemove(size: map<nat, nat>, ring: seq<nat>, g: nat)
    requires forall i :: 0 <= i < |ring| ==> ring[i] in size
    requires g < |ring|
    ensures var ring' := ring[..g] + ring[g + 1..];
      && (forall i :: 0 <= i < |ring'| ==> ring'[i] in size)
      && FreeUnits(size, ring') + size[ring[g]] == FreeUnits(size, ring)
  {
    UnitsAround(size, ring, g, g + 1);
    FreeUnitsConcat(size, ring[..g], ring[g + 1..]);
  }

  lemma UnlinkAt(ptr: map<nat, nat>, ring: seq<nat>, g: nat)
    requires Linked(ptr, ring) && 1 <= g < |ring| && ring[g] in ptr
    requires forall i, j :: 0 <= i < j < |ring| ==> ring[i] < ring[j]
    ensures Linked(ptr[ring[g - 1] := ptr[ring[g]]], ring[..g] + ring[g + 1..])
  {
    var ring', ptr' := ring[..g] + ring[g + 1..], ptr[ring[g - 1] := ptr[ring[g]]];
    forall i: nat | i < |ring'| ensures LinkAt(ptr', ring', i) {
      assert LinkAt(ptr, ring, if i < g then i else i + 1);
      assert LinkAt(ptr, ring, g);
    }
  }

  lemma TakeLive(size: map<nat, nat>, ring: seq<nat>, live: map<nat, nat>, base: nat, brk: nat, g: nat)
    requires LiveOk(size, ring, live, base, brk) && Spaced(size, ring) && 1 <= g < |ring| && ring[0] == base
    requires size[ring[g]] >= 1
    ensures LiveOk(size, ring[..g] + ring[g + 1..], live[ring[g] := size[ring[g]]], base, brk)
  {
    var p := ring[g];
    var ring', live' := ring[..g] + ring[g + 1..], live[p := size[p]];
    forall a, i | a in live' && 0 <= i < |ring'|
      ensures ring'[i] in size && Apart(a, live'[a], ring'[i], size[ring'[i]])
    {
      var j := if i < g then i else i + 1;
      assert ring'[i] == ring[j];
      if a != p { assert Apart(a, live[a], ring[j], size[ring[j]]); }
    }
    forall a, b | a in live' && b in live' && a != b ensures Apart(a, live'[a], b, live'[b]) {
      if a == p { assert Apart(b, live[b], ring[g], size[ring[g]]); }
      if b == p { assert Apart(a, live[a], ring[g], size[ring[g]]); }
    }
    assert base + size[base] < p;
  }

  /** The tail of a larger block is handed out; the ring keeps its shape. */
  lemma TakeTail(ptr: map<nat, nat>, size: map<nat, nat>, ring: seq<nat>, live: map<nat, nat>, base: nat, brk: nat,
                 g: nat, n: nat)
    requires HeapOk(ptr, size, ring, live, base, brk) && 1 <= g < |ring| && 1 <= n < size[ring[g]]
    ensures var p := ring[g];
            var q := p + (size[p] - n);
            var size' := size[p := size[p] - n][q := n];
      && q !in live && q !in ring
      && HeapOk(ptr, size', ring, live[q := n], base, brk)
      && FreeUnits(size', ring) + n == FreeUnits(size, ring)
  {
    hide Linked;
    Increasing(size, ring);
    var p := ring[g];
    var q := p + (size[p] - n);
    var size' := size[p := size[p] - n][q := n];
    forall j | 0 <= j < |ring| ensures ring[j] != q {
      assert j > g ==> ring[g] + size[ring[g]] < ring[j];
    }
    forall a | a in live ensures a != q {
      assert Apart(a, live[a], ring[g], size[ring[g]]);
    }
    TailUnits(size, ring, g, q, n);
    TailLive(size, ring, live, base, brk, g, q, n);
    assert ring[0] + size[ring[0]] < ring[g];
  }

  lemma TailUnits(size: map<nat, nat>, ring: seq<nat>, g: nat, q: nat, n: nat)
    requires forall i :: 0 <= i < |ring| ==> ring[i] in size
    requires forall i, j :: 0 <= i < j < |ring| ==> ring[i] < ring[j]
    requires g < |ring| && n <= size[ring[g]] && q !in ring
    ensures forall i :: 0 <= i < |ring| ==> ring[i] in size[ring[g] := size[ring[g]] - n][q := n]
    ensures FreeUnits(size[ring[g] := size[ring[g]] - n][q := n], ring) + n == FreeUnits(size, ring)
  {
    var size' := size[ring[g] := size[ring[g]] - n][q := n];
    UnitsAround(size, ring, g, g + 1);
    UnitsAround(size', ring, g, g + 1);
    FreeUnitsSame(size, size', ring[..g]);
    FreeUnitsSame(size, size', ring[g + 1..]);
  }

  lemma TailLive(size: map<nat, nat>, ring: seq<nat>, live: map<nat, nat>, base: nat, brk: nat, g: nat, q: nat, n: nat)
    requires LiveOk(size, ring, live, base, brk) && Spaced(size, ring) && 1 <= g < |ring| && ring[0] == base
    requires 1 <= n < size[ring[g]] && q == ring[g] + (size[ring[g]] - n) && q !in ring && q !in live
    ensures LiveOk(size[ring[g] := size[ring[g]] - n][q := n], ring, live[q := n], base, brk)
  {
    var size', live' := size[ring[g] := size[ring[g]] - n][q := n], live[q := n];
    forall a | a in live ensures Apart(a, live[a], q, n) {
      assert Apart(a, live[a], ring[g], size[ring[g]]);
    }
    forall a, i | a in live' && 0 <= i < |ring|
      ensures ring[i] in size' && Apart(a, live'[a], ring[i], size'[ring[i]])
    {
      if a != q {
        assert Apart(a, live[a], ring[i], size[ring[i]]);
      } else if i < g {
        assert ring[i] + size[ring[i]] < ring[g];
      } else if i > g {
        assert ring[g] + size[ring[g]] < ring[i];
      }
    }
    assert base + size[base] < ring[g];
    forall a, b | a in live' && b in live' && a != b ensures Apart(a, live'[a], b, live'[b]) {
      if a != q && b != q { assert Apart(a, live[a], b, live[b]); }
    }
    forall i | 0 <= i < |ring| ensures ring[i] in size' && ring[i] + size'[ring[i]] <= brk {
      assert ring[i] + size[ring[i]] <= brk;
    }
  }

  // Walking the ring

  /** The index k + 1 steps after f on a circle of n. */
  ghost function Steps(f: nat, k: nat, n: nat): nat
    requires f < n && k < n
    ensures Steps(f, k, n) < n
  {
    if f + 1 + k < n then f + 1 + k else f + 1 + k - n
  }

  lemma {:induction false} FindGap(ring: seq<nat>, bp: nat, m: nat) returns (t: nat)
    requires 1 <= m <= |ring| && ring[0] < bp && bp !in ring
    requires forall i, j :: 0 <= i < j < |ring| ==> ring[i] < ring[j]
    requires forall i :: m <= i < |ring| ==> bp < ring[i]
    ensures Gap(ring, t, bp)
    decreases m
  {
    if ring[m - 1] < bp {
      t := m - 1;
    } else {
      assert ring[m - 1] in ring;
      t := FindGap(ring, bp, m - 1);
    }
  }

  /** The search loop of free stops at the gap and nowhere else. */
  lemma SearchStops(ring: seq<nat>, i: nat, t: nat, bp: nat)
    requires i < |ring| && Gap(ring, t, bp) && bp !in ring && ring[0] < bp
    requires forall i, j :: 0 <= i < j < |ring| ==> ring[i] < ring[j]
    ensures var p, q := ring[i], After(ring, i);
      ((p < bp < q) || (p >= q && (bp > p || bp < q))) <==> i == t
  {
    assert ring[i] in ring;
    if i + 1 < |ring| { assert ring[i + 1] in ring; }
  }

  class Malloc {
    const base: nat
    var ptr: map<nat, nat>
    var size: map<nat, nat>
    var freep: nat
    var brk: nat
    ghost var ring: seq<nat>
    ghost var live: map<nat, nat>
    ghost var total: nat

    ghost predicate Valid()
      reads this
    {
      && 0 < base < brk
      && (freep == 0 ==> live == map[] && total == 0)
      && (freep != 0 ==>
            && HeapOk(ptr, size, ring, live, base, brk) && freep in ring
            && FreeUnits(size, ring) + LiveUnits(live) == total)
    }

    constructor (b: nat, end: nat)
      requires 0 < b < end
      ensures Valid() && base == b && brk == end && live == map[] && freep == 0 && total == 0
    {
      base, brk, freep, ptr, size := b, end, 0, map[], map[];
      ring, live, total := [], map[], 0;
    }

    /** The search loop of free: it ends, at the free block just below bp. */
    method FindPlace(bp: nat) returns (p: nat, ghost t: nat)
      requires Valid() && bp in live
      ensures freep != 0 && Gap(ring, t, bp) && p == ring[t]
      ensures p in ring && p < bp && forall a :: a in ring && a < bp ==> a <= p
    {
      hide HeapOk, FreeUnits, LiveUnits, Gap, After;
      RingFacts(ptr, size, ring, live, base, brk, bp);
      t := FindGap(ring, bp, |ring|);
      GapInRing(ring, t, bp);
      p := freep;
      ghost var i: nat := IndexOf(ring, freep);
      Follow(ptr, size, ring, live, base, brk, i);
      while !(bp > p && bp < ptr[p])
        invariant i < |ring| && p == ring[i] && p in ptr && ptr[p] == After(ring, i)
        decreases if i <= t then t - i else t - i + |ring|
      {
        SearchStops(ring, i, t, bp);
        if p >= ptr[p] && (bp > p || bp < ptr[p]) {
          break;
        }
        AfterIndex(ring, i);
        i := if i + 1 < |ring| then i + 1 else 0;
        p := ptr[p];
        Follow(ptr, size, ring, live, base, brk, i);
      }
      SearchStops(ring, i, t, bp);
      HighestBelow(ring, t, bp);
    }

    /** free of a live block: it joins the ring and melts with its free neighbours. */
    method Free(ap: nat)
      requires Valid() && ap >= 1 && ap - 1 in live
      modifies this`ptr, this`size, this`freep, this`ring, this`live
      ensures Valid() && live == old(live) - {ap - 1} && freep != 0
      ensures freep in ptr && freep in size && ptr[freep] in size
      ensures size[freep] >= old(live)[ap - 1] || size[ptr[freep]] >= old(live)[ap - 1]
    {
      hide FreeUnits, LiveUnits, HeapOk, Gap;
      var bp := ap - 1;
      var p;
      ghost var t;
      p, t := FindPlace(bp);
      ghost var ptr0, size0, ring0 := ptr, size, ring;
      LiveRemove(live, bp);
      PlaceFacts(ptr, size, ring, live, base, brk, t, bp);
      ghost var up := Upper(size, ring, t, bp);
      ghost var s, n := if up then t + 2 else t + 1, size[bp] + (if up then size[ring[t + 1]] else 0);
      var q := ptr[p];
      if bp + size[bp] == q {
        size := size[bp := size[bp] + size[q]];
        ptr := ptr[bp := ptr[q]];
      } else {
        ptr := ptr[bp := q];
      }
      assert ptr == ptr0[bp := First(ring0, s)] && size == size0[bp := n];
      if p + size[p] == bp {
        FreeMerge(ptr0, size0, ring0, live, base, brk, t, bp, s, n);
        size := size[p := size[p] + size[bp]];
        ptr := ptr[p := ptr[bp]];
        ring := ring[..t + 1] + ring[s..];
      } else {
        FreeInsert(ptr0, size0, ring0, live, base, brk, t, bp, s, n);
        ptr := ptr[p := bp];
        ring := ring[..t + 1] + [bp] + ring[s..];
      }
      freep := p;
      live := live - {bp};
      assert p == ring[t];
      Follow(ptr, size, ring, live, base, brk, t);
    }

    /** morecore: at least 4096 units from sbrk, given to free.  The argument is what sbrk
        would return. */
    method Morecore(nu: nat, sbrk: Option<nat>) returns (ok: bool)
      requires Valid() && freep != 0 && (sbrk.Some? ==> sbrk.value >= brk)
      modifies this
      ensures ok == sbrk.Some?
      ensures !ok ==> unchanged(this)
      ensures ok ==>
        && Valid() && freep != 0 && live == old(live)
        && total == old(total) + (if nu < MIN_UNITS then MIN_UNITS else nu)
        && freep in ptr && freep in size && ptr[freep] in size && (size[freep] >= nu || size[ptr[freep]] >= nu)
    {
      hide FreeUnits, LiveUnits, HeapOk;
      var n := if nu < MIN_UNITS then MIN_UNITS else nu;
      if sbrk.None? {
        return false;
      }
      var hp := sbrk.value;
      GrowLive(ptr, size, ring, live, base, brk, hp, n);
      LiveAdd(live, hp, n);
      size := size[hp := n];
      brk := hp + n;
      live := live[hp := n];
      total := total + n;
      assert live - {hp} == old(live);
      Free(hp + 1);
      return true;
    }

    /** The units malloc asks for: the request rounded up, plus one for the header. */
    static function Units(nbytes: nat): (units: nat)
      ensures nbytes <= (units - 1) * HEADER_BYTES < nbytes + HEADER_BYTES
    {
      (nbytes + HEADER_BYTES - 1) / HEADER_BYTES + 1
    }

    /** Take block p off the ring, or its tail. */
    method Take(prevp: nat, p: nat, n: nat, ghost g: nat) returns (r: nat)
      requires Valid() && freep != 0 && 1 <= g < |ring| && p == ring[g] && prevp == ring[g - 1]
      requires p in size && size[p] >= n >= 1
      modifies this`ptr, this`size, this`freep, this`ring, this`live
      ensures Valid() && freep == prevp && r >= 1
      ensures r - 1 !in old(live) && live == old(live)[r - 1 := n]
    {
      hide FreeUnits, LiveUnits, HeapOk;
      Follow(ptr, size, ring, live, base, brk, g);
      Follow(ptr, size, ring, live, base, brk, g - 1);
      var q := p;
      if size[p] == n {
        TakeWhole(ptr, size, ring, live, base, brk, g);
        LiveAdd(live, p, n);
        ptr := ptr[prevp := ptr[p]];
        ring := ring[..g] + ring[g + 1..];
        live := live[p := n];
        assert ring[g - 1] == prevp;
      } else {
        q := p + (size[p] - n);
        TakeTail(ptr, size, ring, live, base, brk, g, n);
        LiveAdd(live, q, n);
        size := size[p := size[p] - n][q := n];
        live := live[q := n];
      }
      freep := prevp;
      r := q + 1;
    }

    /** malloc.  The result is 0 or a fresh live block of the size asked for; a null result
        means that sbrk failed and no free block is large enough.  The heap grows only
        after every free block has been found too small, and at most once. */
    method Alloc(nbytes: nat, sbrk: Option<nat>) returns (r: nat)
      requires Valid() && (sbrk.Some? ==> sbrk.value >= brk)
      modifies this
      ensures Valid()
      ensures r == 0 ==> sbrk.None? && live == old(live) && total == old(total) && Small(size, ring, Units(nbytes))
      ensures r != 0 ==> r - 1 !in old(live) && live == old(live)[r - 1 := Units(nbytes)]
      ensures total != old(total) ==>
        && sbrk.Some? && total == old(total) + (if Units(nbytes) < MIN_UNITS then MIN_UNITS else Units(nbytes))
        && (old(freep) != 0 ==> Small(old(size), old(ring), Units(nbytes)))
    {
      hide FreeUnits, LiveUnits, HeapOk, Small, Cursor, Goal, AllSmall;
      var n := Units(nbytes);
      if freep == 0 {
        EmptyHeap(ptr, size, base, brk);
        ptr, size := ptr[base := base], size[base := 0];
        freep := base;
        ring := [base];
      }
      ghost var f: nat, k: nat := IndexOf(ring, freep), 0;
      ghost var grown: bool, goal: nat := false, 0;
      var prevp := freep;
      CursorStart(ptr, size, ring, live, base, brk, f, n);
      var p := ptr[prevp];
      while true
        invariant Valid() && freep != 0 && live == old(live)
        invariant Cursor(ring, f, k, freep, prevp, p) && AllSmall(size, ring, f, k, n)
        invariant !grown ==>
          total == old(total) && brk == old(brk) && (old(freep) != 0 ==> ring == old(ring) && size == old(size))
        invariant grown ==>
          && sbrk.Some? && total == old(total) + (if n < MIN_UNITS then MIN_UNITS else n)
          && (old(freep) != 0 ==> Small(old(size), old(ring), n))
          && Goal(size, ring, f, k, goal, n)
        decreases if grown then 0 else 1, |ring| - k
      {
        CursorFacts(ptr, size, ring, live, base, brk, f, k, freep, prevp, p);
        if size[p] >= n {
          r := Take(prevp, p, n, Steps(f, k, |ring|));
          return;
        }
        AllSmallStep(size, ring, f, k, n);
        if grown {
          GoalAhead(ptr, size, ring, live, base, brk, f, k, freep, prevp, p, goal, n);
        }
        if p == freep {
          LastStep(ptr, size, ring, live, base, brk, f, k, freep, prevp, p);
          AllSmallAll(size, ring, f, n);
          var ok := Morecore(n, sbrk);
          if !ok {
            return 0;
          }
          p := freep;
          f := IndexOf(ring, freep);
          grown, k := true, 0;
          goal := if size[freep] >= n then |ring| - 1 else 0;
          CursorStart(ptr, size, ring, live, base, brk, f, n);
          GoalSet(ptr, size, ring, live, base, brk, f, n);
        } else {
          CursorNext(ptr, size, ring, live, base, brk, f, k, freep, prevp, p);
          k := k + 1;
        }
        prevp := p;
        p := ptr[p];
      }
    }
  }

  /** Where the malloc loop stands: p is k + 1 blocks after freep, prevp right before it. */
  ghost predicate Cursor(ring: seq<nat>, f: nat, k: nat, freep: nat, prevp: nat, p: nat) {
    && f < |ring| && k < |ring| && freep == ring[f]
    && p == ring[Steps(f, k, |ring|)] && prevp == ring[Before(f, k, |ring|)]
  }

  /** A large enough block lies at or ahead of the cursor. */
  ghost predicate Goal(size: map<nat, nat>, ring: seq<nat>, f: nat, k: nat, goal: nat, n: nat) {
    f < |ring| && k <= goal < |ring| && ring[Steps(f, goal, |ring|)] in size && size[ring[Steps(f, goal, |ring|)]] >= n
  }

  lemma CursorStart(ptr: map<nat, nat>, size: map<nat, nat>, ring: seq<nat>, live: map<nat, nat>, base: nat, brk: nat,
                    f: nat, n: nat)
    requires HeapOk(ptr, size, ring, live, base, brk) && f < |ring|
    ensures ring[f] in ptr && ring[f] in size && Cursor(ring, f, 0, ring[f], ring[f], ptr[ring[f]])
    ensures AllSmall(size, ring, f, 0, n)
  {
    Follow(ptr, size, ring, live, base, brk, f);
  }

  lemma CursorFacts(ptr: map<nat, nat>, size: map<nat, nat>, ring: seq<nat>, live: map<nat, nat>, base: nat, brk: nat,
                    f: nat, k: nat, freep: nat, prevp: nat, p: nat)
    requires HeapOk(ptr, size, ring, live, base, brk) && Cursor(ring, f, k, freep, prevp, p)
    ensures f < |ring| && k < |ring| && p == ring[Steps(f, k, |ring|)] && p in size && p in ptr && freep in ring
    ensures size[p] >= 1 ==> Steps(f, k, |ring|) >= 1 && prevp == ring[Steps(f, k, |ring|) - 1]
  {
    Follow(ptr, size, ring, live, base, brk, Steps(f, k, |ring|));
  }

  lemma CursorNext(ptr: map<nat, nat>, size: map<nat, nat>, ring: seq<nat>, live: map<nat, nat>, base: nat, brk: nat,
                   f: nat, k: nat, freep: nat, prevp: nat, p: nat)
    requires HeapOk(ptr, size, ring, live, base, brk) && Cursor(ring, f, k, freep, prevp, p) && p != freep
    ensures p in ptr && Cursor(ring, f, k + 1, freep, p, ptr[p])
  {
    Follow(ptr, size, ring, live, base, brk, Steps(f, k, |ring|));
  }

  lemma LastStep(ptr: map<nat, nat>, size: map<nat, nat>, ring: seq<nat>, live: map<nat, nat>, base: nat, brk: nat,
                 f: nat, k: nat, freep: nat, prevp: nat, p: nat)
    requires HeapOk(ptr, size, ring, live, base, brk) && Cursor(ring, f, k, freep, prevp, p) && p == freep
    ensures k == |ring| - 1
  {
    Increasing(size, ring);
    assert Steps(f, k, |ring|) == f;
  }

  /** A block that is too small is not the goal, so the goal is still ahead and p is not freep. */
  lemma GoalAhead(ptr: map<nat, nat>, size: map<nat, nat>, ring: seq<nat>, live: map<nat, nat>, base: nat, brk: nat,
                  f: nat, k: nat, freep: nat, prevp: nat, p: nat, goal: nat, n: nat)
    requires HeapOk(ptr, size, ring, live, base, brk) && Cursor(ring, f, k, freep, prevp, p)
    requires Goal(size, ring, f, k, goal, n) && p in size && size[p] < n
    ensures Goal(size, ring, f, k + 1, goal, n) && p != freep
  {
    Increasing(size, ring);
  }

  lemma GoalSet(ptr: map<nat, nat>, size: map<nat, nat>, ring: seq<nat>, live: map<nat, nat>, base: nat, brk: nat,
                f: nat, n: nat)
    requires HeapOk(ptr, size, ring, live, base, brk) && f < |ring| && ring[f] in ptr && ring[f] in size
    requires ptr[ring[f]] in size
    requires size[ring[f]] >= n || size[ptr[ring[f]]] >= n
    ensures Goal(size, ring, f, 0, if size[ring[f]] >= n then |ring| - 1 else 0, n)
  {
    Follow(ptr, size, ring, live, base, brk, f);
  }

  ghost function IndexOf(ring: seq<nat>, a: nat): nat
    requires a in ring
    ensures IndexOf(ring, a) < |ring| && ring[IndexOf(ring, a)] == a
  {
    var i: nat :| i < |ring| && ring[i] == a; i
  }

  /** The index of the block before the (k + 1)-th after f. */
  ghost function Before(f: nat, k: nat, n: nat): nat
    requires f < n && k < n
    ensures Before(f, k, n) < n
  {
    if k == 0 then f else Steps(f, k - 1, n)
  }

  ghost predicate AllSmall(size: map<nat, nat>, ring: seq<nat>, f: nat, k: nat, n: nat)
  {
    && f < |ring| && k <= |ring|
    && forall j: nat :: j < k ==> ring[Steps(f, j, |ring|)] in size && size[ring[Steps(f, j, |ring|)]] < n
  }

  ghost predicate Small(size: map<nat, nat>, ring: seq<nat>, n: nat) {
    forall i :: 0 <= i < |ring| ==> ring[i] in size && size[ring[i]] < n
  }

  lemma AllSmallStep(size: map<nat, nat>, ring: seq<nat>, f: nat, k: nat, n: nat)
    requires f < |ring| && k < |ring| && AllSmall(size, ring, f, k, n)
    requires ring[Steps(f, k, |ring|)] in size && size[ring[Steps(f, k, |ring|)]] < n
    ensures AllSmall(size, ring, f, k + 1, n)
  {
  }

  lemma AllSmallAll(size: map<nat, nat>, ring: seq<nat>, f: nat, n: nat)
    requires f < |ring| && AllSmall(size, ring, f, |ring|, n)
    ensures Small(size, ring, n)
  {
    forall i | 0 <= i < |ring| ensures ring[i] in size && size[ring[i]] < n {
      var j: nat := if i > f then i - f - 1 else i + |ring| - f - 1;
      assert Steps(f, j, |ring|) == i;
    }
  }

  lemma EmptyHeap(ptr: map<nat, nat>, size: map<nat, nat>, base: nat, brk: nat)
    requires 0 < base < brk
    ensures HeapOk(ptr[base := base], size[base := 0], [base], map[], base, brk)
    ensures FreeUnits(size[base := 0], [base]) + LiveUnits(map[]) == 0
  {
    assert [base][..0] == [];
  }

  lemma RingFacts(ptr: map<nat, nat>, size: map<nat, nat>, ring: seq<nat>, live: map<nat, nat>, base: nat, brk: nat,
                  bp: nat)
    requires HeapOk(ptr, size, ring, live, base, brk) && bp in live
    ensures |ring| >= 1 && ring[0] < bp && bp !in ring
    ensures forall i, j :: 0 <= i < j < |ring| ==> ring[i] < ring[j]
  {
    Increasing(size, ring);
  }

  lemma HighestBelow(ring: seq<nat>, t: nat, bp: nat)
    requires Gap(ring, t, bp) && forall i, j :: 0 <= i < j < |ring| ==> ring[i] < ring[j]
    ensures ring[t] < bp && forall a :: a in ring && a < bp ==> a <= ring[t]
  {
    forall i | 0 <= i < |ring| && ring[i] < bp ensures ring[i] <= ring[t] {
    }
  }

  lemma GapInRing(ring: seq<nat>, t: nat, bp: nat)
    requires Gap(ring, t, bp)
    ensures t < |ring|
  {
  }

  lemma AfterIndex(ring: seq<nat>, i: nat)
    requires i < |ring|
    ensures After(ring, i) == ring[if i + 1 < |ring| then i + 1 else 0]
  {
  }

  lemma Follow(ptr: map<nat, nat>, size: map<nat, nat>, ring: seq<nat>, live: map<nat, nat>, base: nat, brk: nat,
               i: nat)
    requires HeapOk(ptr, size, ring, live, base, brk) && i < |ring|
    ensures ring[i] in ptr && ring[i] in size && ptr[ring[i]] == After(ring, i)
    ensures ptr[ring[i]] in size && ptr[ring[i]] in ring && ring[i] > 0
  {
    assert LinkAt(ptr, ring, i);
  }

  lemma PlaceFacts(ptr: map<nat, nat>, size: map<nat, nat>, ring: seq<nat>, live: map<nat, nat>, base: nat, brk: nat,
                   t: nat, bp: nat)
    requires HeapOk(ptr, size, ring, live, base, brk) && bp in live && Gap(ring, t, bp)
    ensures t < |ring| && bp in size && size[bp] == live[bp] && ring[t] in size && ring[t] in ptr && ring[t] != bp
    ensures ptr[ring[t]] == First(ring, t + 1)
    ensures bp + size[bp] == ptr[ring[t]] <==> Upper(size, ring, t, bp)
    ensures Upper(size, ring, t, bp) ==>
      ring[t + 1] in size && ring[t + 1] in ptr && ptr[ring[t + 1]] == First(ring, t + 2) && ring[t + 1] != bp
  {
    Follow(ptr, size, ring, live, base, brk, t);
    if t + 1 < |ring| { Follow(ptr, size, ring, live, base, brk, t + 1); }
    assert bp !in ring && base < bp;
  }

  /** Fresh memory above the break is apart from everything. */
  lemma GrowLive(ptr: map<nat, nat>, size: map<nat, nat>, ring: seq<nat>, live: map<nat, nat>, base: nat, brk: nat,
                 hp: nat, n: nat)
    requires HeapOk(ptr, size, ring, live, base, brk) && hp >= brk > base && n >= 1
    ensures hp !in live && HeapOk(ptr, size[hp := n], ring, live[hp := n], base, hp + n)
    ensures FreeUnits(size[hp := n], ring) == FreeUnits(size, ring)
  {
    hide Linked, FreeUnits;
    forall i | 0 <= i < |ring| ensures ring[i] != hp {
      assert ring[i] + size[ring[i]] <= brk;
    }
    FreeUnitsSame(size, size[hp := n], ring);
    var live', size' := live[hp := n], size[hp := n];
    forall a, i | a in live' && 0 <= i < |ring|
      ensures ring[i] in size' && Apart(a, live'[a], ring[i], size'[ring[i]])
    {
      if a != hp { assert Apart(a, live[a], ring[i], size[ring[i]]); }
    }
  }
}
