/** The buffer cache of bio.c: NBUF buffers on a circular least-recently-used list.
    Each method is one critical section, so any sequence of calls is an interleaving
    of processes.  A panic is reported as None. */
module BufferCache {
  import opened Blocks
  import opened LruRing
  import opened Params

  const HEAD := NBUF

  datatype Key = Key(dev: nat, blockno: nat)

  datatype Buf = Buf(key: Key, valid: bool, dirty: bool, refcnt: nat, locked: bool, data: Block)

  /** One atomic block write that reached the disk. */
  datatype Write = Write(key: Key, data: Block)

  /** May bget hand this buffer to another block? */
  predicate Recyclable(b: Buf) {
    b.refcnt == 0 && !b.dirty
  }

  /** No block of a nonzero device has two buffers: slot is the index of the only one. */
  ghost predicate Unique(buf: seq<Buf>, slot: map<Key, nat>) {
    && |buf| == NBUF
    && (forall i :: 0 <= i < NBUF && buf[i].key.dev != 0 ==> buf[i].key in slot && slot[buf[i].key] == i)
    && (forall k :: k in slot ==> k.dev != 0 && slot[k] < NBUF && buf[slot[k]].key == k)
  }

  /** content is the plain map from blocks to bytes that the cache implements. */
  ghost predicate BufOk(b: Buf, disk: map<Key, Block>, content: map<Key, Block>) {
    && (b.dirty ==> b.valid)
    && (b.locked ==> b.refcnt > 0)
    && (b.key.dev == 0 ==> !b.valid && b.refcnt == 0)
    && (b.key.dev != 0 ==> b.key in disk)
    && (b.valid ==> b.key in content && b.data == content[b.key])
    && (b.valid && !b.dirty && !b.locked ==> b.key in disk && b.data == disk[b.key])
  }

  /** A buffer that is referenced or dirty still belongs to the same block. */
  ghost predicate Keeps(buf: seq<Buf>, slot: map<Key, nat>, slot': map<Key, nat>) {
    forall k :: k in slot && slot[k] < |buf| && !Recyclable(buf[slot[k]]) ==> k in slot' && slot'[k] == slot[k]
  }

  /** The blocks that a dirty buffer keeps in the cache. */
  ghost function Pinned(buf: seq<Buf>, slot: map<Key, nat>): set<Key> {
    set k | k in slot && slot[k] < |buf| && buf[slot[k]].dirty
  }

  ghost predicate Coherent(buf: seq<Buf>, slot: map<Key, nat>, disk: map<Key, Block>, content: map<Key, Block>) {
    && Unique(buf, slot)
    && content.Keys == disk.Keys
    && (forall i :: 0 <= i < NBUF ==> BufOk(buf[i], disk, content))
    && (forall k :: k in disk && (k !in slot || !buf[slot[k]].valid) ==> content[k] == disk[k])
  }

  /** Changing one buffer, together with the disk or the plain map at its block only. */
  lemma UpdateCoherent(buf: seq<Buf>, slot: map<Key, nat>, disk: map<Key, Block>, content: map<Key, Block>,
                       i: nat, b: Buf, disk': map<Key, Block>, content': map<Key, Block>)
    requires Coherent(buf, slot, disk, content) && i < NBUF
    requires b.key == buf[i].key && BufOk(b, disk', content')
    requires b.key.dev != 0 && disk'.Keys == content'.Keys == disk.Keys
    requires forall k :: k in disk && k != b.key ==> disk'[k] == disk[k] && content'[k] == content[k]
    requires !b.valid ==> content'[b.key] == disk'[b.key]
    ensures Coherent(buf[i := b], slot, disk', content')
  {
    var buf' := buf[i := b];
    forall j | 0 <= j < NBUF ensures BufOk(buf'[j], disk', content') {
      if j != i && buf[j].key.dev != 0 {
        assert buf[j].key != b.key;
        assert BufOk(buf[j], disk, content);
      }
    }
  }

  lemma UpdatePinned(buf: seq<Buf>, slot: map<Key, nat>, i: nat, b: Buf)
    requires Unique(buf, slot) && i < NBUF && b.key == buf[i].key && b.key.dev != 0
    ensures Pinned(buf[i := b], slot) == if b.dirty then Pinned(buf, slot) + {b.key} else Pinned(buf, slot) - {b.key}
    ensures b.dirty == buf[i].dirty ==> Pinned(buf[i := b], slot) == Pinned(buf, slot)
  {
    assert buf[i].dirty <==> b.key in Pinned(buf, slot);
  }

  lemma RecyclePinned(buf: seq<Buf>, slot: map<Key, nat>, i: nat, k: Key, b: Buf)
    requires Unique(buf, slot) && i < NBUF && !buf[i].dirty && !b.dirty && k !in slot
    ensures Pinned(buf[i := b], (slot - {buf[i].key})[k := i]) == Pinned(buf, slot)
  {
  }

  /** Handing a clean unreferenced buffer to another block loses nothing. */
  lemma RecycleCoherent(buf: seq<Buf>, slot: map<Key, nat>, disk: map<Key, Block>, content: map<Key, Block>,
                        i: nat, k: Key)
    requires Coherent(buf, slot, disk, content) && i < NBUF
    requires Recyclable(buf[i]) && k !in slot && k in disk && k.dev != 0
    ensures Coherent(buf[i := Buf(k, false, false, 1, false, buf[i].data)],
                     (slot - {buf[i].key})[k := i], disk, content)
    ensures Keeps(buf, slot, (slot - {buf[i].key})[k := i])
  {
    var buf' := buf[i := Buf(k, false, false, 1, false, buf[i].data)];
    var slot' := (slot - {buf[i].key})[k := i];
    assert BufOk(buf[i], disk, content);
    forall j | 0 <= j < NBUF ensures BufOk(buf'[j], disk, content) {
      assert BufOk(buf[j], disk, content);
    }
    forall l | l in disk && (l !in slot' || !buf'[slot'[l]].valid) ensures content[l] == disk[l] {
      if l != k && l != buf[i].key {
        assert l in slot <==> l in slot';
      }
    }
  }

  /** What the invariant says of one buffer. */
  lemma CoherentAt(buf: seq<Buf>, slot: map<Key, nat>, disk: map<Key, Block>, content: map<Key, Block>, i: nat)
    requires Coherent(buf, slot, disk, content) && i < NBUF
    ensures Unique(buf, slot) && disk.Keys == content.Keys
    ensures BufOk(buf[i], disk, content)
    ensures buf[i].key.dev != 0 ==> buf[i].key in slot && slot[buf[i].key] == i
    ensures buf[i].key in disk && !buf[i].valid && buf[i].key.dev != 0 ==> content[buf[i].key] == disk[buf[i].key]
  {
  }

  lemma CoherentSlot(buf: seq<Buf>, slot: map<Key, nat>, disk: map<Key, Block>, content: map<Key, Block>, k: Key)
    requires Coherent(buf, slot, disk, content) && k in slot
    ensures |buf| == NBUF && slot[k] < NBUF && buf[slot[k]].key == k && k.dev != 0
    ensures BufOk(buf[slot[k]], disk, content)
  {
  }

  class Cache {
    var buf: seq<Buf>
    var next: seq<nat>
    var prev: seq<nat>
    var disk: map<Key, Block>
    ghost var order: seq<nat>
    ghost var pos: seq<nat>
    ghost var slot: map<Key, nat>
    ghost var content: map<Key, Block>
    ghost var trace: seq<Write>

    ghost predicate Valid()
      reads this
    {
      && |buf| == NBUF
      && Coherent(buf, slot, disk, content)
      && Ring(next, prev, HEAD, order)
      && Covers(order, pos, HEAD)
    }

    /** binit: every buffer starts as block 0 of device 0, invalid. */
    constructor (d: map<Key, Block>, junk: Block)
      ensures Valid()
      ensures disk == d && content == d && trace == [] && slot == map[]
      ensures forall i :: 0 <= i < NBUF ==> buf[i] == Buf(Key(0, 0), false, false, 0, false, junk)
    {
      var nx: seq<nat> := seq(NBUF + 1, _ => HEAD);
      var pv: seq<nat> := seq(NBUF + 1, _ => HEAD);
      ghost var ord: seq<nat> := [];
      var b := 0;
      while b < NBUF
        invariant 0 <= b <= NBUF
        invariant Ring(nx, pv, HEAD, ord)
        invariant |ord| == b && forall p :: 0 <= p < b ==> ord[p] == b - 1 - p
      {
        RingInsert(nx, pv, HEAD, ord, b);
        nx := nx[b := nx[HEAD]];
        pv := pv[b := HEAD];
        pv := pv[nx[HEAD] := b];
        nx := nx[HEAD := b];
        ord := [b] + ord;
        b := b + 1;
      }
      buf := seq(NBUF, _ => Buf(Key(0, 0), false, false, 0, false, junk));
      next, prev, disk := nx, pv, d;
      order, pos, slot, content, trace := ord, seq(NBUF, i => NBUF - 1 - i), map[], d, [];
    }

    /** First scan of bget, from the most recently used end. */
    method Find(k: Key) returns (r: Option<nat>)
      requires Valid() && k.dev != 0
      ensures r == if k in slot then Some(slot[k]) else None
      ensures r.Some? ==> r.value < NBUF && buf[r.value].key == k
    {
      var b := next[HEAD];
      ghost var p := 0;
      assert next[At(order, HEAD, -1)] == At(order, HEAD, 0);
      while b != HEAD
        invariant 0 <= p <= NBUF && b == At(order, HEAD, p)
        invariant forall q :: 0 <= q < p ==> buf[order[q]].key != k
        decreases NBUF - p
      {
        if buf[b].key == k {
          return Some(b);
        }
        assert next[At(order, HEAD, p)] == At(order, HEAD, p + 1);
        b := next[b];
        p := p + 1;
      }
      forall i | 0 <= i < NBUF ensures buf[i].key != k { assert order[pos[i]] == i; }
      return None;
    }

    /** Second scan of bget, from the least recently used end. */
    method Victim() returns (r: Option<nat>)
      requires Valid()
      ensures r.None? ==> forall i :: 0 <= i < NBUF ==> !Recyclable(buf[i])
      ensures r.Some? ==>
        && r.value < NBUF && Recyclable(buf[r.value])
        && (forall p :: pos[r.value] < p < NBUF ==> !Recyclable(buf[order[p]]))
    {
      var b := prev[HEAD];
      ghost var p := NBUF - 1;
      assert prev[At(order, HEAD, NBUF)] == At(order, HEAD, NBUF - 1);
      while b != HEAD
        invariant -1 <= p < NBUF && b == At(order, HEAD, p)
        invariant forall q :: p < q < NBUF ==> !Recyclable(buf[order[q]])
        decreases p + 1
      {
        if Recyclable(buf[b]) {
          return Some(b);
        }
        assert prev[At(order, HEAD, p)] == At(order, HEAD, p - 1);
        b := prev[b];
        p := p - 1;
      }
      forall i | 0 <= i < NBUF ensures !Recyclable(buf[i]) { assert order[pos[i]] == i; }
      return None;
    }

    /** The critical section of bget: find the block's buffer or recycle one. */
    method Bget(k: Key) returns (r: Option<nat>)
      requires Valid() && k in disk && k.dev != 0
      modifies this`buf, this`slot
      ensures Valid() && Keeps(old(buf), old(slot), slot) && Pinned(buf, slot) == old(Pinned(buf, slot))
      ensures r.None? ==>
        && k !in old(slot) && (forall i :: 0 <= i < NBUF ==> !Recyclable(old(buf)[i]))
        && buf == old(buf) && slot == old(slot)
      ensures r.Some? ==> r.value < NBUF && k in slot && slot[k] == r.value && buf[r.value].key == k
      ensures r.Some? && k in old(slot) ==>
        && slot == old(slot)
        && buf == old(buf)[r.value := old(buf)[r.value].(refcnt := old(buf)[r.value].refcnt + 1)]
      ensures r.Some? && k !in old(slot) ==>
        && Recyclable(old(buf)[r.value])
        && slot == (old(slot) - {old(buf)[r.value].key})[k := r.value]
        && buf == old(buf)[r.value := Buf(k, false, false, 1, false, old(buf)[r.value].data)]
        // the victim is the least recently used buffer that is free
        && (forall p :: pos[r.value] < p < NBUF ==> !Recyclable(old(buf)[order[p]]))
    {
      hide Ring, Covers, Coherent, Unique, Pinned;
      r := Find(k);
      if r.Some? {
        var b := r.value;
        CoherentAt(buf, slot, disk, content, b);
        UpdateCoherent(buf, slot, disk, content, b, buf[b].(refcnt := buf[b].refcnt + 1), disk, content);
        UpdatePinned(buf, slot, b, buf[b].(refcnt := buf[b].refcnt + 1));
        buf := buf[b := buf[b].(refcnt := buf[b].refcnt + 1)];
        return;
      }
      r := Victim();
      if r.Some? {
        var b := r.value;
        RecycleCoherent(buf, slot, disk, content, b, k);
        CoherentAt(buf, slot, disk, content, b);
        RecyclePinned(buf, slot, b, k, Buf(k, false, false, 1, false, buf[b].data));
        slot := (slot - {buf[b].key})[k := b];
        buf := buf[b := Buf(k, false, false, 1, false, buf[b].data)];
      }
    }

    /** acquiresleep on a referenced buffer, once no one else holds it. */
    method Lock(b: nat)
      requires Valid() && b < NBUF && buf[b].refcnt > 0 && !buf[b].locked
      modifies this`buf
      ensures Valid() && buf == old(buf)[b := old(buf)[b].(locked := true)]
      ensures Pinned(buf, slot) == old(Pinned(buf, slot))
    {
      hide Ring, Covers, Coherent, Unique, Pinned;
      CoherentAt(buf, slot, disk, content, b);
      UpdateCoherent(buf, slot, disk, content, b, buf[b].(locked := true), disk, content);
      UpdatePinned(buf, slot, b, buf[b].(locked := true));
      buf := buf[b := buf[b].(locked := true)];
    }

    /** iderw as memide.c does it; false is a panic. */
    method Iderw(b: nat) returns (ok: bool)
      requires Valid() && b < NBUF && buf[b].key.dev != 0
      modifies this`buf, this`disk, this`trace
      ensures Valid()
      ensures ok <==> old(buf)[b].locked && (!old(buf)[b].valid || old(buf)[b].dirty)
      ensures !ok ==> buf == old(buf) && disk == old(disk) && trace == old(trace)
      ensures ok ==> buf == old(buf)[b := old(buf)[b].(valid := true, dirty := false, data := content[old(buf)[b].key])]
      ensures Pinned(buf, slot) ==
        if ok && old(buf)[b].dirty then old(Pinned(buf, slot)) - {buf[b].key} else old(Pinned(buf, slot))
      ensures ok && !old(buf)[b].dirty ==> disk == old(disk) && trace == old(trace)
      ensures ok && old(buf)[b].dirty ==>
        && disk == old(disk)[buf[b].key := buf[b].data]
        && trace == old(trace) + [Write(buf[b].key, buf[b].data)]
    {
      hide Ring, Covers, Coherent, Unique, Pinned;
      CoherentAt(buf, slot, disk, content, b);
      if !buf[b].locked || (buf[b].valid && !buf[b].dirty) {
        return false;
      }
      var x := buf[b];
      if x.dirty {
        UpdateCoherent(buf, slot, disk, content, b, x.(dirty := false), disk[x.key := x.data], content);
        UpdatePinned(buf, slot, b, x.(dirty := false));
        disk := disk[x.key := x.data];
        trace := trace + [Write(x.key, x.data)];
        buf := buf[b := x.(valid := true, dirty := false)];
      } else {
        UpdateCoherent(buf, slot, disk, content, b, x.(valid := true, data := disk[x.key]), disk, content);
        UpdatePinned(buf, slot, b, x.(valid := true, data := disk[x.key]));
        buf := buf[b := x.(valid := true, data := disk[x.key])];
      }
      return true;
    }

    /** bread by a process that has to wait for no one: the caller receives the bytes
        that the plain map holds for the block. */
    method Bread(k: Key) returns (r: Option<nat>)
      requires Valid() && k in disk && k.dev != 0
      requires k in slot ==> !buf[slot[k]].locked
      modifies this`buf, this`slot, this`disk, this`trace
      ensures Valid() && Keeps(old(buf), old(slot), slot) && Pinned(buf, slot) == old(Pinned(buf, slot))
      ensures disk == old(disk) && trace == old(trace)
      ensures r.None? ==>
        && k !in old(slot) && (forall i :: 0 <= i < NBUF ==> !Recyclable(old(buf)[i]))
        && buf == old(buf) && slot == old(slot)
      ensures r.Some? ==>
        var b := r.value;
        && b < NBUF && k in slot && slot[k] == b
        && buf[b].key == k && buf[b].locked && buf[b].valid && buf[b].data == content[k]
        && (buf[b].dirty || buf[b].data == disk[k])
        && buf == old(buf)[b := buf[b]]
      ensures r.Some? && k in old(slot) ==>
        && slot == old(slot)
        && buf[r.value].dirty == old(buf)[r.value].dirty && buf[r.value].refcnt == old(buf)[r.value].refcnt + 1
      ensures r.Some? && k !in old(slot) ==>
        && Recyclable(old(buf)[r.value])
        && slot == (old(slot) - {old(buf)[r.value].key})[k := r.value]
        && !buf[r.value].dirty && buf[r.value].refcnt == 1
    {
      hide Ring, Covers, Coherent, Unique, Keeps, Pinned;
      if k in slot {
        CoherentSlot(buf, slot, disk, content, k);
      }
      r := Bget(k);
      if r.Some? {
        CoherentAt(buf, slot, disk, content, r.value);
        Lock(r.value);
        if !buf[r.value].valid {
          var ok := Iderw(r.value);
        }
      }
    }

    /** The holder of a buffer changes its bytes: one update of the plain map. */
    method Modify(b: nat, data: Block)
      requires Valid() && b < NBUF && buf[b].locked && buf[b].valid
      modifies this`buf, this`content
      ensures Valid()
      ensures buf == old(buf)[b := old(buf)[b].(data := data)]
      ensures content == old(content)[buf[b].key := data]
      ensures Pinned(buf, slot) == old(Pinned(buf, slot))
    {
      hide Ring, Covers, Coherent, Unique, Pinned;
      CoherentAt(buf, slot, disk, content, b);
      UpdateCoherent(buf, slot, disk, content, b, buf[b].(data := data), disk, content[buf[b].key := data]);
      UpdatePinned(buf, slot, b, buf[b].(data := data));
      content := content[buf[b].key := data];
      buf := buf[b := buf[b].(data := data)];
    }

    /** The mark log_write leaves on a buffer so that it stays in the cache. */
    method Pin(b: nat)
      requires Valid() && b < NBUF && buf[b].locked && buf[b].valid
      modifies this`buf
      ensures Valid() && buf == old(buf)[b := old(buf)[b].(dirty := true)]
      ensures Pinned(buf, slot) == old(Pinned(buf, slot)) + {buf[b].key}
    {
      hide Ring, Covers, Coherent, Unique, Pinned;
      CoherentAt(buf, slot, disk, content, b);
      UpdateCoherent(buf, slot, disk, content, b, buf[b].(dirty := true), disk, content);
      UpdatePinned(buf, slot, b, buf[b].(dirty := true));
      buf := buf[b := buf[b].(dirty := true)];
    }

    method Bwrite(b: nat) returns (ok: bool)
      requires Valid() && b < NBUF && buf[b].valid
      modifies this`buf, this`disk, this`trace
      ensures Valid()
      ensures ok == old(buf)[b].locked
      ensures !ok ==> buf == old(buf) && disk == old(disk) && trace == old(trace)
      ensures ok ==>
        && buf == old(buf)[b := old(buf)[b].(dirty := false)]
        && Pinned(buf, slot) == old(Pinned(buf, slot)) - {buf[b].key}
        && disk == old(disk)[buf[b].key := buf[b].data]
        && trace == old(trace) + [Write(buf[b].key, buf[b].data)]
    {
      hide Ring, Covers, Coherent, Unique, Pinned;
      CoherentAt(buf, slot, disk, content, b);
      if !buf[b].locked {
        return false;
      }
      UpdateCoherent(buf, slot, disk, content, b, buf[b].(dirty := true), disk, content);
      UpdatePinned(buf, slot, b, buf[b].(dirty := true));
      buf := buf[b := buf[b].(dirty := true)];
      ok := Iderw(b);
    }

    /** releasesleep: allowed once every change is on disk or pinned. */
    method Unlock(b: nat)
      requires Valid() && b < NBUF && buf[b].locked && buf[b].valid
      requires buf[b].dirty || buf[b].data == disk[buf[b].key]
      modifies this`buf
      ensures Valid() && buf == old(buf)[b := old(buf)[b].(locked := false)]
      ensures Pinned(buf, slot) == old(Pinned(buf, slot))
    {
      hide Ring, Covers, Coherent, Unique, Pinned;
      CoherentAt(buf, slot, disk, content, b);
      UpdateCoherent(buf, slot, disk, content, b, buf[b].(locked := false), disk, content);
      UpdatePinned(buf, slot, b, buf[b].(locked := false));
      buf := buf[b := buf[b].(locked := false)];
    }

    /** The critical section of brelse: drop a reference other than the lock holder's. */
    method Unref(b: nat)
      requires Valid() && b < NBUF && buf[b].refcnt > (if buf[b].locked then 1 else 0)
      modifies this`buf, this`next, this`prev, this`order, this`pos
      ensures Valid()
      ensures buf == old(buf)[b := old(buf)[b].(refcnt := old(buf)[b].refcnt - 1)]
      ensures Pinned(buf, slot) == old(Pinned(buf, slot))
      // the last release makes the buffer the most recently used one
      ensures order == if buf[b].refcnt == 0 then [b] + Without(old(order), old(pos)[b]) else old(order)
    {
      hide Ring, Covers, Coherent, Unique, Pinned;
      CoherentAt(buf, slot, disk, content, b);
      UpdateCoherent(buf, slot, disk, content, b, buf[b].(refcnt := buf[b].refcnt - 1), disk, content);
      UpdatePinned(buf, slot, b, buf[b].(refcnt := buf[b].refcnt - 1));
      buf := buf[b := buf[b].(refcnt := buf[b].refcnt - 1)];
      if buf[b].refcnt == 0 {
        LinksInRange(next, prev, HEAD, order, pos);
        RelinkRing(next, prev, HEAD, order, pos, b);
        var links := Relink(next, prev, HEAD, b);
        next, prev := links.0, links.1;
        order := [b] + Without(order, pos[b]);
        pos := Front(pos, b);
      }
    }

    method Brelse(b: nat) returns (ok: bool)
      requires Valid() && b < NBUF && buf[b].valid
      requires buf[b].dirty || buf[b].data == disk[buf[b].key]
      modifies this`buf, this`next, this`prev, this`order, this`pos
      ensures Valid()
      ensures ok == old(buf)[b].locked
      ensures !ok ==> buf == old(buf)
      ensures Pinned(buf, slot) == old(Pinned(buf, slot))
      ensures ok ==> buf == old(buf)[b := old(buf)[b].(locked := false, refcnt := old(buf)[b].refcnt - 1)]
      ensures order == if ok && old(buf)[b].refcnt == 1 then [b] + Without(old(order), old(pos)[b]) else old(order)
    {
      hide Ring, Covers, Coherent, Unique, Pinned;
      CoherentAt(buf, slot, disk, content, b);
      if !buf[b].locked {
        return false;
      }
      Unlock(b);
      Unref(b);
      return true;
    }
  }
}
