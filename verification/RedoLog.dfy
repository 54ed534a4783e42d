/** log.c on top of the buffer cache: log_write, commit and recovery as the kernel runs
    them, each tied to the block writes whose crash behaviour CrashRecovery proves. */
module RedoLog {
  import opened Blocks
  import opened BufferCache
  import opened CrashRecovery
  import LogAdmission
  import opened Params
  import opened Sets

  /** The buffers in mine are locked by the process that runs here.  Those in others are held
      or awaited by processes that only read; no other buffer is in use. */
  ghost predicate Using(buf: seq<Buf>, disk: map<Key, Block>, others: set<nat>, mine: set<nat>) {
    && (forall i :: i in others ==> i < |buf|) && (forall i :: i in mine ==> i < |buf|)
    && (forall i: nat :: i < |buf| ==>
          if i in mine then buf[i].refcnt == 1 && buf[i].locked && buf[i].valid
          else if i in others then Reading(buf[i], disk)
          else buf[i].refcnt == 0)
  }

  predicate Reading(b: Buf, disk: map<Key, Block>) {
    b.refcnt > 0 && !b.dirty && (b.valid ==> b.key in disk && b.data == disk[b.key])
  }

  /** No buffer in others holds a block of keys. */
  ghost predicate Away(buf: seq<Buf>, others: set<nat>, keys: set<Key>) {
    forall i :: i in others && i < |buf| ==> buf[i].key !in keys
  }

  /** The buffers in others are as they were. */
  ghost predicate Spared(buf: seq<Buf>, buf': seq<Buf>, others: set<nat>) {
    |buf'| == |buf| && forall i :: i in others && i < |buf| ==> buf'[i] == buf[i]
  }

  lemma SparedTrans(a: seq<Buf>, b: seq<Buf>, c: seq<Buf>, others: set<nat>)
    requires Spared(a, b, others) && Spared(b, c, others)
    ensures Spared(a, c, others)
  {
  }

  lemma SparedAway(a: seq<Buf>, b: seq<Buf>, others: set<nat>, keys: set<Key>)
    requires Spared(a, b, others) && Away(a, others, keys)
    ensures Away(b, others, keys)
  {
  }

  /** A buffer that nobody uses is taken. */
  lemma UsingTake(buf: seq<Buf>, disk: map<Key, Block>, others: set<nat>, mine: set<nat>, b: nat, x: Buf)
    requires Using(buf, disk, others, mine) && b < |buf| && b !in others && b !in mine
    requires x.refcnt == 1 && x.locked && x.valid
    ensures Using(buf[b := x], disk, others, mine + {b}) && Spared(buf, buf[b := x], others)
  {
  }

  lemma UsingMine(buf: seq<Buf>, disk: map<Key, Block>, others: set<nat>, mine: set<nat>, b: nat)
    requires Using(buf, disk, others, mine) && b in mine
    ensures b < |buf| && buf[b].refcnt == 1 && buf[b].locked && buf[b].valid
  {
  }

  /** The holder changes its buffer, and perhaps the disk at that block. */
  lemma UsingChange(buf: seq<Buf>, disk: map<Key, Block>, others: set<nat>, mine: set<nat>, b: nat, x: Buf,
                    disk': map<Key, Block>)
    requires Using(buf, disk, others, mine) && b in mine && b !in others && b < |buf| && Away(buf, others, {x.key})
    requires x.refcnt == 1 && x.locked && x.valid
    requires disk'.Keys == disk.Keys && forall k :: k in disk && k != x.key ==> disk'[k] == disk[k]
    ensures Using(buf[b := x], disk', others, mine) && Spared(buf, buf[b := x], others)
  {
  }

  lemma UsingRelease(buf: seq<Buf>, disk: map<Key, Block>, others: set<nat>, mine: set<nat>, b: nat, x: Buf)
    requires Using(buf, disk, others, mine) && b in mine && b !in others && b < |buf| && x.refcnt == 0
    ensures Using(buf[b := x], disk, others, mine - {b}) && Spared(buf, buf[b := x], others)
  {
  }

  // Finding a free buffer

  lemma {:induction false} Outside(s: set<nat>, n: nat)
    requires |s| < n
    ensures exists i: nat :: i < n && i !in s
  {
    if n - 1 in s {
      Outside(s - {n - 1}, n - 1);
      var i: nat :| i < n - 1 && i !in s - {n - 1};
      assert i !in s;
    }
  }

  lemma {:induction false} Below(s: set<nat>, n: nat)
    requires forall i :: i in s ==> i < n
    ensures |s| <= n
  {
    if n == 0 {
      assert s == {};
    } else {
      Below(s - {n - 1}, n - 1);
    }
  }

  /** Distinct buffers hold distinct blocks. */
  lemma {:induction false} AtMost(buf: seq<Buf>, slot: map<Key, nat>, s: set<nat>, keys: set<Key>)
    requires Unique(buf, slot)
    requires forall i :: i in s ==> i < NBUF && buf[i].key.dev != 0 && buf[i].key in keys
    ensures |s| <= |keys|
  {
    if s != {} {
      var i :| i in s;
      AtMost(buf, slot, s - {i}, keys - {buf[i].key});
    }
  }

  /** Distinct blocks are in distinct buffers. */
  lemma {:induction false} AtLeast(buf: seq<Buf>, slot: map<Key, nat>, s: set<nat>, keys: set<Key>)
    requires Unique(buf, slot)
    requires forall k :: k in keys ==> k in slot && slot[k] in s
    ensures |keys| <= |s|
  {
    if keys != {} {
      var k :| k in keys;
      AtLeast(buf, slot, s - {slot[k]}, keys - {k});
    }
  }

  /** Fewer than NBUF pinned blocks and buffers in use leave one to recycle. */
  lemma FreeBuffer(buf: seq<Buf>, slot: map<Key, nat>, disk: map<Key, Block>, content: map<Key, Block>, taken: set<nat>)
    requires Coherent(buf, slot, disk, content)
    requires forall i: nat :: i < NBUF && buf[i].refcnt > 0 ==> i in taken
    requires |Pinned(buf, slot)| + |taken| < NBUF
    ensures exists i :: 0 <= i < NBUF && Recyclable(buf[i])
  {
    var dirty := set i: nat | i < NBUF && buf[i].dirty;
    forall i | i in dirty ensures buf[i].key.dev != 0 && buf[i].key in Pinned(buf, slot) {
      assert BufOk(buf[i], disk, content);
    }
    AtMost(buf, slot, dirty, Pinned(buf, slot));
    Outside(dirty + taken, NBUF);
    var i: nat :| i < NBUF && i !in dirty + taken;
    assert Recyclable(buf[i]);
  }

  /** As many as NBUF leave none, if no buffer is both pinned and in use. */
  lemma NoFreeBuffer(buf: seq<Buf>, slot: map<Key, nat>, taken: set<nat>)
    requires Unique(buf, slot)
    requires forall i :: i in taken ==> i < NBUF && buf[i].refcnt > 0 && !buf[i].dirty
    requires |Pinned(buf, slot)| + |taken| >= NBUF
    ensures forall i :: 0 <= i < NBUF ==> !Recyclable(buf[i])
  {
    var dirty := set i: nat | i < NBUF && buf[i].dirty;
    var both := dirty + taken;
    AtLeast(buf, slot, dirty, Pinned(buf, slot));
    assert dirty * taken == {};
    assert |both| == |dirty| + |taken|;
    forall i: nat | i < NBUF ensures i in both {
      Below(both + {i}, NBUF);
      assert i !in both ==> |both + {i}| == |both| + 1;
    }
  }

  /** A block that no one holds and that is not pinned reads as the disk has it. */
  lemma SettledContent(buf: seq<Buf>, slot: map<Key, nat>, disk: map<Key, Block>, content: map<Key, Block>,
                       others: set<nat>, k: Key)
    requires Coherent(buf, slot, disk, content) && Using(buf, disk, others, {}) && k in disk
    requires k !in Pinned(buf, slot)
    ensures content.Keys == disk.Keys && content[k] == disk[k]
  {
    if k in slot { assert BufOk(buf[slot[k]], disk, content); }
  }

  /** bread when no one else holds the block.  It fails only without a buffer to recycle, and
      that is so exactly when the pinned blocks and the buffers in use fill the cache. */
  method Fetch(c: Cache, k: Key, ghost others: set<nat>, ghost mine: set<nat>) returns (r: Option<nat>)
    requires c.Valid() && Using(c.buf, c.disk, others, mine) && others !! mine && k in c.disk && k.dev != 0
    requires Away(c.buf, others + mine, {k})
    modifies c
    ensures k in old(Pinned(c.buf, c.slot)) || old(|Pinned(c.buf, c.slot)|) + |others| + |mine| < NBUF ==> r.Some?
    ensures Clean(old(c.buf), mine) && k !in old(Pinned(c.buf, c.slot)) ==>
      (old(|Pinned(c.buf, c.slot)|) + |others| + |mine| >= NBUF ==> r.None?)
    ensures c.Valid() && c.disk == old(c.disk) && c.trace == old(c.trace) && c.content == old(c.content)
    ensures Pinned(c.buf, c.slot) == old(Pinned(c.buf, c.slot))
    ensures r.None? ==> c.buf == old(c.buf)
    ensures r.Some? ==>
      var b := r.value;
      && b < NBUF && b !in others && b !in mine && Using(c.buf, c.disk, others, mine + {b})
      && c.buf == old(c.buf)[b := c.buf[b]] && Spared(old(c.buf), c.buf, others)
      && c.buf[b].key == k && k in c.content && c.buf[b].data == c.content[k]
      && (c.buf[b].dirty || c.buf[b].data == c.disk[k])
      && (c.buf[b].dirty ==> k in old(Pinned(c.buf, c.slot)))
  {
    hide LruRing.Ring, LruRing.Covers, Coherent, Unique, Pinned, BufOk, Using, Away, Spared, Clean, Keeps;
    ghost var buf0 := c.buf;
    FetchFacts(c.buf, c.slot, c.disk, c.content, others, mine, k);
    r := c.Bread(k);
    if r.Some? {
      CoherentAt(c.buf, c.slot, c.disk, c.content, r.value);
      FreeIsMine(buf0, c.disk, others, mine, r.value);
      UsingTake(buf0, c.disk, others, mine, r.value, c.buf[r.value]);
      DirtyIsPinned(c.buf, c.slot, k);
    }
  }

  lemma FreeIsMine(buf: seq<Buf>, disk: map<Key, Block>, others: set<nat>, mine: set<nat>, b: nat)
    requires Using(buf, disk, others, mine) && b < |buf| && buf[b].refcnt == 0
    ensures b !in others && b !in mine
  {
  }

  ghost predicate Clean(buf: seq<Buf>, mine: set<nat>) {
    forall i :: i in mine ==> i < |buf| && !buf[i].dirty
  }

  lemma DirtyIsPinned(buf: seq<Buf>, slot: map<Key, nat>, k: Key)
    requires k in slot && slot[k] < |buf|
    ensures buf[slot[k]].dirty <==> k in Pinned(buf, slot)
  {
  }

  lemma FetchFacts(buf: seq<Buf>, slot: map<Key, nat>, disk: map<Key, Block>, content: map<Key, Block>,
                   others: set<nat>, mine: set<nat>, k: Key)
    requires Coherent(buf, slot, disk, content) && Using(buf, disk, others, mine) && others !! mine
    requires Away(buf, others + mine, {k})
    ensures k in slot ==> slot[k] < NBUF == |buf| && buf[slot[k]].refcnt == 0 && !buf[slot[k]].locked
    ensures k in slot && k !in Pinned(buf, slot) ==> Recyclable(buf[slot[k]])
    ensures k in Pinned(buf, slot) ==> k in slot
    ensures |Pinned(buf, slot)| + |others| + |mine| < NBUF ==> exists i :: 0 <= i < NBUF == |buf| && Recyclable(buf[i])
    ensures Clean(buf, mine) && |Pinned(buf, slot)| + |others| + |mine| >= NBUF ==>
      forall i :: 0 <= i < NBUF == |buf| ==> !Recyclable(buf[i])
  {
    assert |others + mine| == |others| + |mine|;
    var taken := others + mine;
    if |Pinned(buf, slot)| + |taken| < NBUF {
      FreeBuffer(buf, slot, disk, content, taken);
    } else if Clean(buf, mine) {
      NoFreeBuffer(buf, slot, taken);
    }
    if k in slot { assert BufOk(buf[slot[k]], disk, content); }
  }

  /** Two breads in a row by the same process. */
  method FetchBoth(c: Cache, logKey: Key, homeKey: Key, ghost others: set<nat>) returns (r: Option<(nat, nat)>)
    requires c.Valid() && Using(c.buf, c.disk, others, {}) && Away(c.buf, others, {logKey, homeKey})
    requires logKey in c.disk && homeKey in c.disk && logKey != homeKey && logKey.dev != 0 && homeKey.dev != 0
    requires logKey !in Pinned(c.buf, c.slot)
    modifies c
    ensures var pinned := old(|Pinned(c.buf, c.slot)|);
      r.Some? <==> pinned + |others| < NBUF && (homeKey in old(Pinned(c.buf, c.slot)) || pinned + |others| + 1 < NBUF)
    ensures c.Valid() && c.disk == old(c.disk) && c.trace == old(c.trace) && c.content == old(c.content)
    ensures Pinned(c.buf, c.slot) == old(Pinned(c.buf, c.slot))
    ensures r.Some? ==>
      var (b1, b2) := r.value;
      && b1 < NBUF && b2 < NBUF && b1 != b2 && b1 !in others && b2 !in others
      && Using(c.buf, c.disk, others, {b1, b2}) && Spared(old(c.buf), c.buf, others)
      && c.buf[b1].key == logKey && logKey in c.content && c.buf[b1].data == c.content[logKey] == c.disk[logKey]
      && c.buf[b2].key == homeKey && homeKey in c.content && c.buf[b2].data == c.content[homeKey]
      && (c.buf[b2].dirty || c.buf[b2].data == c.disk[homeKey])
      && Away(c.buf, others, {logKey}) && Away(c.buf, others, {homeKey})
  {
    hide LruRing.Ring, LruRing.Covers, Coherent, Unique, Pinned, BufOk, Using, Away, Spared, Clean;
    AwayParts(c.buf, others, logKey, homeKey);
    ghost var buf0 := c.buf;
    var r1 := Fetch(c, logKey, others, {});
    if r1.None? {
      return None;
    }
    var b1 := r1.value;
    ghost var buf1 := c.buf;
    assert {} + {b1} == {b1};
    FetchNext(buf0, buf1, others, b1, logKey, homeKey);
    var r2 := Fetch(c, homeKey, others, {b1});
    if r2.None? {
      return None;
    }
    var b2 := r2.value;
    SparedTrans(buf0, buf1, c.buf, others);
    CopyFacts(buf0, buf1, c.buf, c.disk, others, b1, b2, logKey, homeKey);
    return Some((b1, b2));
  }

  /** The loop body of write_log and install_trans: read the log block, read the home
      block, copy one over the other, write the copy to disk, release both.  false is the
      panic of bread without a free buffer. */
  method CopyBlock(c: Cache, logKey: Key, homeKey: Key, toLog: bool, ghost others: set<nat>) returns (ok: bool)
    requires c.Valid() && Using(c.buf, c.disk, others, {}) && Away(c.buf, others, {logKey, homeKey})
    requires logKey in c.disk && homeKey in c.disk && logKey != homeKey && logKey.dev != 0 && homeKey.dev != 0
    requires logKey !in Pinned(c.buf, c.slot)
    modifies c
    ensures var pinned := old(|Pinned(c.buf, c.slot)|);
      ok <==> pinned + |others| < NBUF && (homeKey in old(Pinned(c.buf, c.slot)) || pinned + |others| + 1 < NBUF)
    ensures !ok ==> c.disk == old(c.disk) && c.trace == old(c.trace) && c.content == old(c.content)
    ensures ok ==>
      var dst, src := if toLog then logKey else homeKey, if toLog then homeKey else logKey;
      && c.Valid() && Using(c.buf, c.disk, others, {}) && Spared(old(c.buf), c.buf, others)
      && src in old(c.content)
      && c.content == old(c.content)[dst := old(c.content)[src]]
      && c.disk == old(c.disk)[dst := old(c.content)[src]]
      && c.trace == old(c.trace) + [Write(dst, old(c.content)[src])]
      && Pinned(c.buf, c.slot) == old(Pinned(c.buf, c.slot)) - {dst}
  {
    hide LruRing.Ring, LruRing.Covers, Coherent, Unique, Pinned, BufOk, Using, Away, Spared, Clean;
    ghost var buf0 := c.buf;
    var r := FetchBoth(c, logKey, homeKey, others);
    if r.None? {
      return false;
    }
    var (b1, b2) := r.value;
    ghost var buf2 := c.buf;
    var dst, src := if toLog then b1 else b2, if toLog then b2 else b1;
    StoreBlock(c, dst, c.buf[src].data, others, {b1, b2});
    ghost var buf3 := c.buf;
    Release(c, src, others, {b1, b2});
    ghost var buf4 := c.buf;
    assert {b1, b2} - {src} == {dst} && {dst} - {dst} == {};
    Release(c, dst, others, {dst});
    SparedTrans(buf0, buf2, buf3, others);
    SparedTrans(buf0, buf3, buf4, others);
    SparedTrans(buf0, buf4, c.buf, others);
    return true;
  }

  lemma CopyFacts(buf0: seq<Buf>, buf1: seq<Buf>, buf2: seq<Buf>, disk: map<Key, Block>, others: set<nat>, b1: nat,
                  b2: nat, logKey: Key, homeKey: Key)
    requires Away(buf0, others, {logKey, homeKey}) && Spared(buf0, buf2, others) && b1 !in others
    requires b1 < |buf1| && b2 < |buf1| == |buf2| && b2 != b1 && buf2 == buf1[b2 := buf2[b2]]
    requires Using(buf2, disk, others, {b1} + {b2})
    ensures Away(buf2, others, {logKey}) && Away(buf2, others, {homeKey}) && Using(buf2, disk, others, {b1, b2})
    ensures buf2[b1] == buf1[b1]
  {
    assert {b1} + {b2} == {b1, b2};
  }

  /** The holder fills a buffer and writes it to disk. */
  method StoreBlock(c: Cache, b: nat, data: Block, ghost others: set<nat>, ghost mine: set<nat>)
    requires c.Valid() && Using(c.buf, c.disk, others, mine) && b in mine && b !in others
    requires b < NBUF && c.buf[b].key in c.disk && Away(c.buf, others, {c.buf[b].key})
    modifies c
    ensures c.Valid() && Using(c.buf, c.disk, others, mine) && Spared(old(c.buf), c.buf, others)
    ensures var key := old(c.buf)[b].key;
      && c.content == old(c.content)[key := data] && c.disk == old(c.disk)[key := data]
      && c.trace == old(c.trace) + [Write(key, data)]
      && Pinned(c.buf, c.slot) == old(Pinned(c.buf, c.slot)) - {key}
    ensures c.buf == old(c.buf)[b := old(c.buf)[b].(data := data, dirty := false)]
  {
    hide LruRing.Ring, LruRing.Covers, Coherent, Unique, Pinned, BufOk, Using, Away, Spared;
    ghost var buf0, disk0 := c.buf, c.disk;
    UsingMine(c.buf, c.disk, others, mine, b);
    c.Modify(b, data);
    var ok := c.Bwrite(b);
    UsingChange(buf0, disk0, others, mine, b, c.buf[b], c.disk);
    assert c.buf == buf0[b := c.buf[b]];
  }

  /** The holder releases a buffer whose changes are on disk or pinned. */
  method Release(c: Cache, b: nat, ghost others: set<nat>, ghost mine: set<nat>)
    requires c.Valid() && Using(c.buf, c.disk, others, mine) && b in mine && b !in others
    requires b < NBUF && c.buf[b].key in c.disk && (c.buf[b].dirty || c.buf[b].data == c.disk[c.buf[b].key])
    modifies c`buf, c`next, c`prev, c`order, c`pos
    ensures c.Valid() && Using(c.buf, c.disk, others, mine - {b}) && Spared(old(c.buf), c.buf, others)
    ensures Pinned(c.buf, c.slot) == old(Pinned(c.buf, c.slot))
    ensures c.buf == old(c.buf)[b := c.buf[b]]
  {
    hide LruRing.Ring, LruRing.Covers, Coherent, Unique, Pinned, BufOk, Using, Away, Spared;
    ghost var buf0 := c.buf;
    UsingMine(c.buf, c.disk, others, mine, b);
    var ok := c.Brelse(b);
    UsingRelease(buf0, c.disk, others, mine, b, c.buf[b]);
  }

  lemma AwayParts(buf: seq<Buf>, others: set<nat>, a: Key, b: Key)
    requires Away(buf, others, {a, b})
    ensures Away(buf, others + {}, {a}) && Clean(buf, {})
  {
  }

  lemma FetchNext(buf0: seq<Buf>, buf1: seq<Buf>, others: set<nat>, b1: nat, logKey: Key, homeKey: Key)
    requires Away(buf0, others, {logKey, homeKey}) && Spared(buf0, buf1, others)
    requires b1 < |buf1| && buf1[b1].key == logKey != homeKey
    ensures Away(buf1, others + {b1}, {homeKey}) && Away(buf1, others, {logKey, homeKey})
    ensures !buf1[b1].dirty ==> Clean(buf1, {b1})
  {
  }

  ghost function Homes(l: Layout, blocks: seq<nat>): set<Key> {
    set b | b in blocks :: l.Home(b)
  }

  lemma {:induction false} HomesExact(l: Layout, blocks: seq<nat>)
    requires forall i, j :: 0 <= i < j < |blocks| ==> blocks[i] != blocks[j]
    ensures |Homes(l, blocks)| == |blocks|
  {
    if blocks == [] {
      assert Homes(l, blocks) == {};
    } else {
      var rest, b := blocks[..|blocks| - 1], blocks[|blocks| - 1];
      HomesExact(l, rest);
      assert blocks == rest + [b];
      assert Homes(l, blocks) == Homes(l, rest) + {l.Home(b)};
      assert l.Home(b) !in Homes(l, rest);
    }
  }

  /** No buffer in others holds a block of the log area or of the transaction. */
  ghost predicate Clear(buf: seq<Buf>, others: set<nat>, l: Layout, blocks: seq<nat>) {
    forall i :: i in others && i < |buf| ==> !l.InLog(buf[i].key) && buf[i].key !in Homes(l, blocks)
  }

  lemma ClearAway(buf: seq<Buf>, others: set<nat>, l: Layout, blocks: seq<nat>, t: nat)
    requires Clear(buf, others, l, blocks) && t < |blocks| < l.size
    ensures Away(buf, others, {l.Slot(t), l.Home(blocks[t])})
  {
    assert l.InLog(l.Slot(t)) && l.Home(blocks[t]) in Homes(l, blocks);
  }

  lemma ClearHead(buf: seq<Buf>, others: set<nat>, l: Layout, blocks: seq<nat>)
    requires Clear(buf, others, l, blocks) && l.size >= 1
    ensures Away(buf, others, {l.Head()}) && Clear(buf, others, l, [])
  {
    assert l.InLog(l.Head());
  }

  lemma SparedClear(a: seq<Buf>, b: seq<Buf>, others: set<nat>, l: Layout, blocks: seq<nat>)
    requires Spared(a, b, others) && Clear(a, others, l, blocks)
    ensures Clear(b, others, l, blocks)
  {
  }

  /** install_trans over the bytes that the log slots currently hold. */
  ghost function SlotWrites(l: Layout, blocks: seq<nat>, content: map<Key, Block>): seq<Write>
    requires forall i :: 0 <= i < |blocks| ==> l.Slot(i) in content
  {
    seq(|blocks|, i requires 0 <= i < |blocks| => Write(l.Home(blocks[i]), content[l.Slot(i)]))
  }

  /** Every log block and home block of the transaction exists on the disk. */
  ghost predicate OnDisk(l: Layout, d: map<Key, Block>, blocks: seq<nat>) {
    && l.dev != 0 && l.Head() in d && |blocks| < l.size
    && (forall i :: 0 <= i < |blocks| ==> l.Slot(i) in d && l.Home(blocks[i]) in d && !l.InLog(l.Home(blocks[i])))
    && (forall i, j :: 0 <= i < j < |blocks| ==> blocks[i] != blocks[j])
  }

  ghost predicate Untouched(ws: seq<Write>, k: Key) {
    forall i :: 0 <= i < |ws| ==> ws[i].key != k
  }

  lemma {:induction false} ApplyOther(d: map<Key, Block>, ws: seq<Write>, k: Key)
    requires k in d && Untouched(ws, k)
    ensures k in Apply(d, ws) && Apply(d, ws)[k] == d[k]
  {
    if ws != [] {
      ApplyOther(d, ws[..|ws| - 1], k);
    }
  }

  lemma {:induction false} ApplyKeys(d: map<Key, Block>, ws: seq<Write>)
    requires forall i :: 0 <= i < |ws| ==> ws[i].key in d
    ensures Apply(d, ws).Keys == d.Keys
  {
    if ws != [] {
      ApplyKeys(d, ws[..|ws| - 1]);
    }
  }

  lemma ApplySingle(d: map<Key, Block>, k: Key, b: Block)
    ensures Apply(d, [Write(k, b)]) == d[k := b]
  {
    assert [Write(k, b)][..0] == [];
  }

  lemma ApplyOne(d: map<Key, Block>, ws: seq<Write>, t: nat)
    requires t < |ws|
    ensures ws[..t + 1] == ws[..t] + [ws[t]]
    ensures Apply(d, ws[..t + 1]) == Apply(d, ws[..t])[ws[t].key := ws[t].data]
  {
    assert ws[..t + 1][..t] == ws[..t];
  }

  /** The write_log copies: each reads a home block no earlier copy has touched. */
  lemma LogStep(l: Layout, x: Txn, d: map<Key, Block>, c: map<Key, Block>, t: nat)
    requires HasContent(l, x) && t < |x.blocks| && OnDisk(l, d, x.blocks)
    requires x.content.Keys == d.Keys && c == Apply(x.content, LogWrites(l, x)[..t])
    ensures var h := l.Home(x.blocks[t]);
      && h in c && c[h] == x.content[h] && LogWrites(l, x)[t] == Write(l.Slot(t), c[h])
      && l.InLog(l.Slot(t)) && l.Slot(t) in d && h in d && h != l.Slot(t) && l.dev != 0 && h in Homes(l, x.blocks)
  {
    ApplyOther(x.content, LogWrites(l, x)[..t], l.Home(x.blocks[t]));
  }

  /** The install_trans copies: each reads a log slot, and no copy touches a slot. */
  lemma SlotStep(l: Layout, blocks: seq<nat>, content: map<Key, Block>, c: map<Key, Block>, t: nat)
    requires OnDisk(l, content, blocks) && t < |blocks|
    requires c == Apply(content, SlotWrites(l, blocks, content)[..t])
    ensures forall i, j :: 0 <= i < j < |blocks| ==> blocks[i] != blocks[j]
    ensures var s := l.Slot(t);
      && s in c && c[s] == content[s] && SlotWrites(l, blocks, content)[t] == Write(l.Home(blocks[t]), c[s])
      && s in content && l.Home(blocks[t]) in content && s != l.Home(blocks[t]) && l.dev != 0
  {
    assert l.InLog(l.Slot(t));
    ApplyOther(content, SlotWrites(l, blocks, content)[..t], l.Slot(t));
  }

  datatype EndResult = Left | Committed | Panicked

  class Log {
    const cache: Cache
    const layout: Layout
    var n: nat
    var block: seq<nat>
    var outstanding: nat
    var committing: bool

    /** others are the buffers that reading processes hold. */
    ghost predicate Valid(others: set<nat>)
      reads this, cache
    {
      && cache.Valid() && Using(cache.buf, cache.disk, others, {}) && |block| == LOGSIZE && n <= LOGSIZE
      && cache.content.Keys == cache.disk.Keys
    }

    /** What LogAdmission knows of the log, apart from where the processes stand. */
    ghost function Abs(): LogAdmission.State
      requires n <= |block|
      reads this
    {
      LogAdmission.State(layout.size, block[..n], outstanding, committing, [])
    }

    constructor (c: Cache, l: Layout)
      requires c.Valid() && Using(c.buf, c.disk, {}, {})
      ensures Valid({}) && cache == c && layout == l && n == 0 && outstanding == 0 && !committing
    {
      CoherentAt(c.buf, c.slot, c.disk, c.content, 0);
      cache, layout, n, block, outstanding, committing := c, l, 0, seq(LOGSIZE, _ => 0), 0, false;
    }

    /** write_log; false is the panic of its first bread. */
    method WriteLog(ghost others: set<nat>) returns (ok: bool)
      requires Valid(others) && OnDisk(layout, cache.disk, block[..n]) && Clear(cache.buf, others, layout, block[..n])
      requires Homes(layout, block[..n]) <= Pinned(cache.buf, cache.slot)
      requires forall k :: k in Pinned(cache.buf, cache.slot) ==> !layout.InLog(k)
      modifies cache
      ensures HasContent(layout, Txn(block[..n], old(cache.content)))
      ensures ok <==> n == 0 || old(|Pinned(cache.buf, cache.slot)|) + |others| < NBUF
      ensures !ok ==>
        cache.disk == old(cache.disk) && cache.trace == old(cache.trace) && cache.content == old(cache.content)
      ensures ok ==>
        var ws := LogWrites(layout, Txn(block[..n], old(cache.content)));
        && Valid(others) && Spared(old(cache.buf), cache.buf, others)
        && cache.trace == old(cache.trace) + ws
        && cache.disk == Apply(old(cache.disk), ws) && cache.content == Apply(old(cache.content), ws)
        && Pinned(cache.buf, cache.slot) == old(Pinned(cache.buf, cache.slot))
    {
      hide LruRing.Ring, LruRing.Covers, Coherent, Unique, Pinned, BufOk, LogWrites, Apply, Using, Clear, Spared, Away,
           Homes, OnDisk;
      OnDiskKeys(layout, cache.disk, cache.content, block[..n]);
      ghost var x := Txn(block[..n], cache.content);
      WriteCounts(layout, x);
      ghost var ws := LogWrites(layout, x);
      var tail := 0;
      NoWritesYet(layout, [], {}, cache.disk, cache.content, ws);
      SparedSelf(cache.buf, others);
      while tail < n
        invariant 0 <= tail <= n
        invariant Valid(others) && Spared(old(cache.buf), cache.buf, others) && cache.disk.Keys == old(cache.disk).Keys
        invariant cache.trace == old(cache.trace) + ws[..tail]
        invariant cache.disk == Apply(old(cache.disk), ws[..tail])
        invariant cache.content == Apply(old(cache.content), ws[..tail])
        invariant Pinned(cache.buf, cache.slot) == old(Pinned(cache.buf, cache.slot))
        invariant tail > 0 ==> old(|Pinned(cache.buf, cache.slot)|) + |others| < NBUF
      {
        assert x.blocks[tail] == block[tail];
        LogStep(layout, x, old(cache.disk), cache.content, tail);
        SparedClear(old(cache.buf), cache.buf, others, layout, x.blocks);
        ClearAway(cache.buf, others, layout, x.blocks, tail);
        ghost var buf0 := cache.buf;
        ok := CopyBlock(cache, layout.Slot(tail), layout.Home(block[tail]), true, others);
        if !ok {
          assert tail == 0;
          return;
        }
        SparedTrans(old(cache.buf), buf0, cache.buf, others);
        ApplyOne(old(cache.disk), ws, tail);
        ApplyOne(old(cache.content), ws, tail);
        tail := tail + 1;
      }
      assert ws[..n] == ws;
      return true;
    }

    /** Runs during a commit, when the home blocks are pinned, and during recovery,
        when nothing is. */
    method InstallTrans(ghost others: set<nat>)
      requires Valid(others) && OnDisk(layout, cache.disk, block[..n]) && Clear(cache.buf, others, layout, block[..n])
      requires |Pinned(cache.buf, cache.slot)| + |others| < NBUF
      requires forall k :: k in Pinned(cache.buf, cache.slot) ==> !layout.InLog(k)
      requires Homes(layout, block[..n]) <= Pinned(cache.buf, cache.slot) ||
               (Pinned(cache.buf, cache.slot) == {} && |others| + 1 < NBUF)
      modifies cache
      ensures Valid(others) && Spared(old(cache.buf), cache.buf, others)
      ensures var ws := SlotWrites(layout, block[..n], old(cache.content));
        && cache.trace == old(cache.trace) + ws
        && cache.disk == Apply(old(cache.disk), ws) && cache.content == Apply(old(cache.content), ws)
      ensures Pinned(cache.buf, cache.slot) == old(Pinned(cache.buf, cache.slot)) - Homes(layout, block[..n])
    {
      hide LruRing.Ring, LruRing.Covers, Coherent, Unique, Pinned, BufOk, SlotWrites, Homes, Apply, Using, Clear,
           Spared, Away, OnDisk;
      ghost var blocks := block[..n];
      ghost var pinned := Pinned(cache.buf, cache.slot);
      OnDiskKeys(layout, cache.disk, cache.content, blocks);
      ghost var ws := SlotWrites(layout, blocks, cache.content);
      var tail := 0;
      NoWritesYet(layout, blocks, pinned, cache.disk, cache.content, ws);
      SparedSelf(cache.buf, others);
      while tail < n
        invariant 0 <= tail <= n
        invariant Valid(others) && Spared(old(cache.buf), cache.buf, others) && cache.disk.Keys == old(cache.disk).Keys
        invariant cache.trace == old(cache.trace) + ws[..tail]
        invariant cache.disk == Apply(old(cache.disk), ws[..tail])
        invariant cache.content == Apply(old(cache.content), ws[..tail])
        invariant Pinned(cache.buf, cache.slot) == pinned - Homes(layout, blocks[..tail])
      {
        SlotStep(layout, blocks, old(cache.content), cache.content, tail);
        InstallRound(layout, cache.disk, blocks, pinned, tail, |others|);
        SparedClear(old(cache.buf), cache.buf, others, layout, blocks);
        ClearAway(cache.buf, others, layout, blocks, tail);
        ghost var buf0 := cache.buf;
        var ok := CopyBlock(cache, layout.Slot(tail), layout.Home(block[tail]), false, others);
        SparedTrans(old(cache.buf), buf0, cache.buf, others);
        ApplyOne(old(cache.disk), ws, tail);
        ApplyOne(old(cache.content), ws, tail);
        tail := tail + 1;
      }
      assert ws[..n] == ws && blocks[..n] == blocks;
    }

    /** The loop of write_head over the words in use. */
    method EncodeHeader(was: Block) returns (head: Block)
      requires n <= |block| && Words(block[..n])
      ensures head == WithHeader(was, block[..n])
    {
      ghost var blocks := block[..n];
      head := PutWord(was, 0, n);
      var i := 0;
      while i < n
        invariant 0 <= i <= n && head == FillHeader(was, blocks, i)
      {
        head := PutWord(head, i + 1, block[i]);
        i := i + 1;
      }
    }

    method WriteHead(ghost others: set<nat>)
      requires Valid(others) && layout.Head() in cache.disk && layout.dev != 0
      requires Words(block[..n]) && |Pinned(cache.buf, cache.slot)| + |others| < NBUF
      requires layout.Head() !in Pinned(cache.buf, cache.slot) && Away(cache.buf, others, {layout.Head()})
      modifies cache
      ensures Valid(others) && Spared(old(cache.buf), cache.buf, others)
      ensures var ws := [Write(layout.Head(), WithHeader(old(cache.disk)[layout.Head()], block[..n]))];
        && cache.trace == old(cache.trace) + ws
        && cache.disk == Apply(old(cache.disk), ws) && cache.content == Apply(old(cache.content), ws)
      ensures Pinned(cache.buf, cache.slot) == old(Pinned(cache.buf, cache.slot))
    {
      hide LruRing.Ring, LruRing.Covers, Coherent, Unique, Pinned, BufOk, Words, Apply, WithHeader, Using, Away, Spared;
      ghost var buf0, key := cache.buf, layout.Head();
      SettledContent(buf0, cache.slot, cache.disk, cache.content, others, key);
      assert others + {} == others;
      var r := Fetch(cache, layout.Head(), others, {});
      var b := r.value;
      ghost var buf1 := cache.buf;
      SparedAway(buf0, buf1, others, {key});
      var head := EncodeHeader(cache.buf[b].data);
      assert {} + {b} == {b} && {b} - {b} == {};
      StoreBlock(cache, b, head, others, {b});
      ghost var buf2 := cache.buf;
      Release(cache, b, others, {b});
      SparedTrans(buf0, buf1, buf2, others);
      SparedTrans(buf0, buf2, cache.buf, others);
      WithoutAbsent(old(Pinned(cache.buf, cache.slot)), key);
      ApplySingle(old(cache.disk), layout.Head(), head);
      ApplySingle(old(cache.content), layout.Head(), head);
    }

    method ReadHead()
      requires Valid({}) && layout.Head() in cache.disk && layout.dev != 0
      requires HeaderCount(cache.disk[layout.Head()]) <= LOGSIZE
      requires Pinned(cache.buf, cache.slot) == {}
      modifies this`n, this`block, cache
      ensures Valid({}) && Pinned(cache.buf, cache.slot) == {}
      ensures cache.disk == old(cache.disk) && cache.content == old(cache.content) && cache.trace == old(cache.trace)
      ensures block[..n] == HeaderBlocks(cache.disk[layout.Head()])
    {
      hide LruRing.Ring, LruRing.Covers, Coherent, Unique, Pinned, BufOk, Using, Spared;
      SettledContent(cache.buf, cache.slot, cache.disk, cache.content, {}, layout.Head());
      var r := Fetch(cache, layout.Head(), {}, {});
      var b := r.value;
      var head := cache.buf[b].data;
      n := GetWord(head, 0);
      var i := 0;
      while i < n
        invariant 0 <= i <= n == GetWord(head, 0) && |block| == LOGSIZE
        invariant forall j :: 0 <= j < i ==> block[j] == GetWord(head, 1 + j)
        modifies this`block
      {
        block := block[i := GetWord(head, 1 + i)];
        i := i + 1;
      }
      assert {} + {b} == {b} && {b} - {b} == {};
      Release(cache, b, {}, {b});
    }

    /** An open transaction: exactly its home blocks are pinned in the cache, and whoever else
        is reading stays clear of them and of the log. */
    ghost predicate InTransaction(others: set<nat>)
      reads this, cache
    {
      && Valid(others) && Idle(layout, cache.disk) && Loggable(layout, cache.disk, block[..n])
      && Pinned(cache.buf, cache.slot) == Homes(layout, block[..n]) && Clear(cache.buf, others, layout, block[..n])
    }

    /** The body of commit when something is logged: four stages of disk writes. */
    method Stages(ghost others: set<nat>, ghost x: Txn) returns (ok: bool)
      requires InTransaction(others) && n > 0 && x == Txn(block[..n], cache.content)
      modifies this`n, cache
      ensures ok <==> old(n) + |others| < NBUF
      ensures !ok ==>
        cache.disk == old(cache.disk) && cache.trace == old(cache.trace) && cache.content == old(cache.content)
      ensures HasContent(layout, x) && Words(x.blocks) && layout.Head() in old(cache.disk)
      ensures ok ==>
        var d := old(cache.disk);
        var head := WithHeader(d[layout.Head()], x.blocks);
        var hw, cw := [Write(layout.Head(), head)], [Write(layout.Head(), WithHeader(head, []))];
        && Valid(others) && Spared(old(cache.buf), cache.buf, others) && n == 0 && Pinned(cache.buf, cache.slot) == {}
        && cache.trace == old(cache.trace) + (LogWrites(layout, x) + hw + InstallWrites(layout, x) + cw)
        && cache.disk == Apply(Apply(Apply(Apply(d, LogWrites(layout, x)), hw), InstallWrites(layout, x)), cw)
    {
      hide LruRing.Ring, LruRing.Covers, Coherent, Unique, Pinned, BufOk, Apply, Using, Clear, Spared, Away;
      hide LogWrites, InstallWrites, SlotWrites, WithHeader, Idle, Loggable, Homes, OnDisk;
      ghost var d, c, buf0 := cache.disk, cache.content, cache.buf;
      TransactionFacts(layout, x, d);
      ClearHead(buf0, others, layout, x.blocks);
      ghost var head := WithHeader(d[layout.Head()], x.blocks);
      ok := WriteLog(others);
      if !ok {
        return;
      }
      ghost var buf1 := cache.buf;
      AfterLog(layout, x, d, c);
      SparedAway(buf0, buf1, others, {layout.Head()});
      WriteHead(others);
      ghost var buf2, d2 := cache.buf, cache.disk;
      AfterHead(layout, x, d, c, head);
      SparedTrans(buf0, buf1, buf2, others);
      SparedClear(buf0, buf2, others, layout, x.blocks);
      InstallTrans(others);
      ghost var buf3 := cache.buf;
      AfterInstall(layout, x, d2);
      SparedTrans(buf0, buf2, buf3, others);
      SparedAway(buf0, buf3, others, {layout.Head()});
      EmptyHomes(layout, x.blocks);
      n := 0;
      assert block[..n] == [];
      WriteHead(others);
      SparedTrans(buf0, buf3, cache.buf, others);
    }

    /** commit.  It runs out of buffers, and then before its first disk write, exactly when the
        logged blocks and the readers' buffers fill the cache.  Otherwise it writes exactly
        CommitWrites, leaves nothing dirty and the readers' buffers alone, and makes the disk
        show what the cache showed. */
    method Commit(ghost others: set<nat>) returns (ok: bool)
      requires InTransaction(others)
      modifies this`n, cache
      ensures ok <==> old(n) == 0 || old(n) + |others| < NBUF
      ensures !ok ==>
        cache.disk == old(cache.disk) && cache.trace == old(cache.trace) && cache.content == old(cache.content)
      ensures ok ==> InTransaction(others) && n == 0 && Spared(old(cache.buf), cache.buf, others)
      ensures ok ==>
        var x := Txn(old(block[..n]), old(cache.content));
        && GoodTxn(layout, old(cache.disk), x)
        && cache.trace == old(cache.trace) + CommitWrites(layout, old(cache.disk), x)
        && cache.disk == Apply(old(cache.disk), CommitWrites(layout, old(cache.disk), x))
      ensures ok ==> SameHomes(layout, cache.disk, old(cache.content)) && cache.content == cache.disk
    {
      hide LruRing.Ring, LruRing.Covers, Coherent, Unique, Pinned, BufOk, Apply, Using, Clear, Spared, Away;
      hide LogWrites, InstallWrites, SlotWrites, CommitWrites, WithHeader, Idle, Loggable, SameHomes, After, Homes,
           OnDisk;
      ghost var x := Txn(block[..n], cache.content);
      ghost var d, buf0 := cache.disk, cache.buf;
      TransactionFacts(layout, x, d);
      ClearHead(buf0, others, layout, x.blocks);
      AfterIsContent(layout, x, buf0, cache.slot, d, others);
      CommitResult(layout, x, d);
      EmptyHomes(layout, x.blocks);
      if n > 0 {
        ok := Stages(others, x);
        if !ok {
          return;
        }
        CommitTrace(layout, x, d);
      } else {
        EmptyCommit(layout, x, d);
        SparedSelf(buf0, others);
      }
      assert block[..n] == [];
      SparedClear(buf0, cache.buf, others, layout, []);
      CleanCache(cache.buf, cache.slot, cache.disk, cache.content, others);
      return true;
    }

    /** recover_from_log at boot: writes exactly RecoverWrites and leaves an empty log. */
    method RecoverFromLog()
      requires Valid({}) && Formatted(layout, cache.disk) && Pinned(cache.buf, cache.slot) == {}
      modifies this`n, this`block, cache
      ensures InTransaction({}) && n == 0
      ensures cache.trace == old(cache.trace) + RecoverWrites(layout, old(cache.disk))
      ensures cache.disk == Recover(layout, old(cache.disk)) && cache.content == cache.disk
    {
      hide LruRing.Ring, LruRing.Covers, Coherent, Unique, Pinned, BufOk, Apply, SlotWrites, RecoverWrites, WithHeader,
           Homes, Using;
      CleanCache(cache.buf, cache.slot, cache.disk, cache.content, {});
      ghost var d := cache.disk;
      FormattedFacts(layout, d);
      ReadHead();
      ghost var blocks := block[..n];
      InstallTrans({});
      RecoverTrace(layout, d);
      n := 0;
      assert block[..n] == [];
      EmptyHomes(layout, blocks);
      WriteHead({});
      CleanCache(cache.buf, cache.slot, cache.disk, cache.content, {});
    }

    /** One test of begin_op under the lock; false means going to sleep. */
    method BeginOp() returns (admitted: bool)
      requires n <= |block|
      modifies this`outstanding
      ensures admitted <==> !committing && LogAdmission.Room(old(Abs()))
      ensures outstanding == if admitted then old(outstanding) + 1 else old(outstanding)
    {
      if committing {
        return false;
      }
      if n + (outstanding + 1) * MAXOPBLOCKS > LOGSIZE {
        return false;
      }
      outstanding := outstanding + 1;
      return true;
    }

    /** end_op: the last operation commits, and then the disk shows what the cache showed.  It
        panics if a commit is running, or with it for want of a buffer. */
    method EndOp(ghost others: set<nat>) returns (r: EndResult)
      requires InTransaction(others) && outstanding >= 1
      modifies this`n, this`outstanding, this`committing, cache
      ensures r.Panicked? <==> old(committing) || (old(outstanding) == 1 && old(n) != 0 && old(n) + |others| >= NBUF)
      ensures r.Left? ==>
        && InTransaction(others) && outstanding == old(outstanding) - 1 >= 1 && !committing
        && n == old(n) && cache.disk == old(cache.disk) && cache.content == old(cache.content)
      ensures r.Committed? ==>
        && InTransaction(others) && outstanding == 0 == n && !committing
        && SameHomes(layout, cache.disk, old(cache.content)) && cache.content == cache.disk
        && GoodTxn(layout, old(cache.disk), Txn(old(block[..n]), old(cache.content)))
        && cache.trace ==
           old(cache.trace) + CommitWrites(layout, old(cache.disk), Txn(old(block[..n]), old(cache.content)))
    {
      hide LruRing.Ring, LruRing.Covers, Coherent, Unique, Pinned, BufOk, Apply, Using, Clear, Homes;
      hide CommitWrites, Idle, Loggable, SameHomes, Spared;
      outstanding := outstanding - 1;
      if committing {
        return Panicked;
      }
      if outstanding > 0 {
        return Left;
      }
      committing := true;
      var ok := Commit(others);
      if !ok {
        return Panicked;
      }
      committing := false;
      return EndResult.Committed;
    }

    /** log_write: absorb a block that is already logged, else append it, and pin its
        buffer; false is a panic. */
    method LogWrite(b: nat, bno: nat) returns (ok: bool)
      requires cache.Valid() && |block| == LOGSIZE && n <= LOGSIZE
      requires b < NBUF && cache.buf[b].locked && cache.buf[b].valid && cache.buf[b].key == layout.Home(bno)
      modifies this`n, this`block, cache`buf
      ensures ok <==> LogAdmission.GuardPasses(old(Abs()))
      ensures !ok ==> n == old(n) && block == old(block) && cache.buf == old(cache.buf)
      ensures cache.Valid() && |block| == LOGSIZE && n <= LOGSIZE
      ensures ok ==>
        && block[..n] == LogAdmission.Absorb(old(block[..n]), bno)
        && cache.buf == old(cache.buf)[b := old(cache.buf)[b].(dirty := true)]
        && Pinned(cache.buf, cache.slot) == old(Pinned(cache.buf, cache.slot)) + {layout.Home(bno)}
    {
      hide LruRing.Ring, LruRing.Covers, Coherent, Unique, Pinned, BufOk;
      if n >= LOGSIZE || n + 1 >= layout.size {
        return false;
      }
      if outstanding < 1 {
        return false;
      }
      var i := 0;
      while i < n && block[i] != bno
        invariant 0 <= i <= n
        invariant bno !in block[..i]
      {
        i := i + 1;
      }
      assert i < n ==> bno == block[..n][i];
      block := block[i := bno];
      if i == n {
        n := n + 1;
      }
      cache.Pin(b);
      return true;
    }

    /** The documented use of log_write: bread, modify, log_write, brelse.  The plain map
        changes at this block, the disk does not change at all.  It panics for want of a
        buffer or at the guard of log_write. */
    method Update(bno: nat, data: Block, ghost others: set<nat>) returns (ok: bool)
      requires InTransaction(others) && Away(cache.buf, others, {layout.Home(bno)})
      requires layout.Home(bno) in cache.disk && !layout.InLog(layout.Home(bno)) && bno < UINT_LIMIT
      modifies this`n, this`block, cache
      ensures ok <==> (bno in old(block[..n]) || old(n) + |others| < NBUF) && LogAdmission.GuardPasses(old(Abs()))
      ensures cache.disk == old(cache.disk) && cache.trace == old(cache.trace)
      ensures ok ==>
        && InTransaction(others) && Spared(old(cache.buf), cache.buf, others)
        && block[..n] == LogAdmission.Absorb(old(block[..n]), bno)
        && cache.content == old(cache.content)[layout.Home(bno) := data]
    {
      hide LruRing.Ring, LruRing.Covers, Coherent, Unique, Pinned, BufOk, Homes, Idle, Loggable, Using, Away, Spared,
           Clear;
      ghost var blocks, buf0, disk, key := block[..n], cache.buf, cache.disk, layout.Home(bno);
      LoggableFacts(layout, disk, blocks, bno);
      assert others + {} == others;
      var r := Fetch(cache, layout.Home(bno), others, {});
      if r.None? {
        return false;
      }
      var b := r.value;
      assert {} + {b} == {b} && {b} - {b} == {};
      ghost var buf1 := cache.buf;
      SparedAway(buf0, buf1, others, {key});
      UsingMine(buf1, disk, others, {b}, b);
      cache.Modify(b, data);
      ok := LogWrite(b, bno);
      if ok {
        ghost var buf2 := cache.buf;
        UsingChange(buf1, disk, others, {b}, b, buf2[b], disk);
        assert buf2 == buf1[b := buf2[b]];
        Release(cache, b, others, {b});
        LogMore(layout, disk, blocks, bno);
        SparedTrans(buf0, buf1, buf2, others);
        SparedTrans(buf0, buf2, cache.buf, others);
        StillClear(buf0, cache.buf, others, layout, blocks, bno);
      }
    }
  }

  lemma WithoutAbsent(s: set<Key>, k: Key)
    requires k !in s
    ensures s - {k} == s
  {
  }

  lemma StillClear(buf: seq<Buf>, buf': seq<Buf>, others: set<nat>, l: Layout, blocks: seq<nat>, bno: nat)
    requires Clear(buf, others, l, blocks) && Away(buf, others, {l.Home(bno)}) && Spared(buf, buf', others)
    ensures Clear(buf', others, l, LogAdmission.Absorb(blocks, bno))
  {
  }

  lemma SparedSelf(buf: seq<Buf>, others: set<nat>)
    ensures Spared(buf, buf, others)
  {
  }

  lemma LoggableFacts(l: Layout, d: map<Key, Block>, blocks: seq<nat>, bno: nat)
    requires Idle(l, d) && Loggable(l, d, blocks)
    ensures l.dev != 0 && |Homes(l, blocks)| == |blocks| && (l.Home(bno) in Homes(l, blocks) <==> bno in blocks)
  {
    HomesExact(l, blocks);
  }

  /** Appending or absorbing a block keeps the list loggable. */
  lemma LogMore(l: Layout, d: map<Key, Block>, blocks: seq<nat>, bno: nat)
    requires Loggable(l, d, blocks) && |blocks| < LOGSIZE && |blocks| + 1 < l.size
    requires l.Home(bno) in d && !l.InLog(l.Home(bno)) && bno < UINT_LIMIT
    ensures var blocks' := LogAdmission.Absorb(blocks, bno);
            Loggable(l, d, blocks') && Homes(l, blocks') == Homes(l, blocks) + {l.Home(bno)}
  {
  }

  lemma FormattedFacts(l: Layout, d: map<Key, Block>)
    requires Formatted(l, d)
    ensures l.Head() in d && HeaderCount(d[l.Head()]) <= LOGSIZE && l.dev != 0
    ensures OnDisk(l, d, HeaderBlocks(d[l.Head()]))
  {
    forall i | 0 <= i < l.size - 1 ensures l.Slot(i) in d { assert l.Slot(i) == Key(l.dev, l.start + 1 + i); }
    assert l.Head() == Key(l.dev, l.start);
  }

  lemma RecoverTrace(l: Layout, d: map<Key, Block>)
    requires Formatted(l, d) && l.Head() in d
    requires OnDisk(l, d, HeaderBlocks(d[l.Head()]))
    ensures var ws := SlotWrites(l, HeaderBlocks(d[l.Head()]), d);
            var cw := [Write(l.Head(), WithHeader(d[l.Head()], []))];
            var e := Apply(Apply(d, ws), cw);
      && Apply(d, ws).Keys == d.Keys && Apply(d, ws)[l.Head()] == d[l.Head()]
      && RecoverWrites(l, d) == ws + cw && Recover(l, d) == e
      && Idle(l, e) && Loggable(l, e, [])
  {
    var ws := SlotWrites(l, HeaderBlocks(d[l.Head()]), d);
    var cw := [Write(l.Head(), WithHeader(d[l.Head()], []))];
    assert l.InLog(l.Head());
    ApplyKeys(d, ws);
    ApplyOther(d, ws, l.Head());
    assert RecoverWrites(l, d) == ws + cw;
    ApplyConcat(d, ws, cw);
    ApplySingle(Apply(d, ws), l.Head(), cw[0].data);
    HeaderRoundTrip(d[l.Head()], []);
    assert HeaderBlocks(cw[0].data) == [];
  }

  lemma EmptyCommit(l: Layout, x: Txn, d: map<Key, Block>)
    requires x.blocks == [] && l.Head() in d
    ensures CommitWrites(l, d, x) == [] && Apply(d, CommitWrites(l, d, x)) == d
  {
  }

  lemma EmptyHomes(l: Layout, blocks: seq<nat>)
    ensures Homes(l, []) == {} && Words([])
    ensures Homes(l, blocks) - Homes(l, blocks) == {}
  {
  }

  // The stages of a commit, on values

  lemma TransactionFacts(l: Layout, x: Txn, d: map<Key, Block>)
    requires Idle(l, d) && Loggable(l, d, x.blocks) && x.content.Keys == d.Keys
    ensures HasContent(l, x) && OnDisk(l, d, x.blocks) && Words(x.blocks)
    ensures l.Head() in d && l.InLog(l.Head()) && l.dev != 0 && l.size >= 1 && |Homes(l, x.blocks)| == |x.blocks|
    ensures forall k :: k in Homes(l, x.blocks) ==> !l.InLog(k)
  {
    forall i | 0 <= i < |x.blocks| ensures l.Slot(i) in d { assert l.Slot(i) == Key(l.dev, l.start + 1 + i); }
    assert l.Head() == Key(l.dev, l.start);
    HomesExact(l, x.blocks);
  }

  lemma AfterLog(l: Layout, x: Txn, d: map<Key, Block>, c: map<Key, Block>)
    requires HasContent(l, x) && OnDisk(l, d, x.blocks) && c.Keys == d.Keys
    ensures var ws := LogWrites(l, x);
      && Apply(d, ws).Keys == d.Keys == Apply(c, ws).Keys
      && Apply(d, ws)[l.Head()] == d[l.Head()]
  {
    ApplyKeys(d, LogWrites(l, x));
    ApplyKeys(c, LogWrites(l, x));
    ApplyOther(d, LogWrites(l, x), l.Head());
  }

  lemma {:induction false} SlotsHold(l: Layout, x: Txn, c: map<Key, Block>, k: nat, i: nat)
    requires HasContent(l, x) && i < k <= |x.blocks|
    ensures var e := Apply(c, LogWrites(l, x)[..k]);
            l.Slot(i) in e && e[l.Slot(i)] == x.content[l.Home(x.blocks[i])]
  {
    ApplyOne(c, LogWrites(l, x), k - 1);
    if i < k - 1 {
      SlotsHold(l, x, c, k - 1, i);
    }
  }

  /** After the header write the slots hold what install_trans has to copy home. */
  lemma AfterHead(l: Layout, x: Txn, d: map<Key, Block>, c: map<Key, Block>, head: Block)
    requires HasContent(l, x) && OnDisk(l, d, x.blocks) && c.Keys == d.Keys
    ensures var hw := [Write(l.Head(), head)];
            var d2, c2 := Apply(Apply(d, LogWrites(l, x)), hw), Apply(Apply(c, LogWrites(l, x)), hw);
      && d2.Keys == d.Keys && OnDisk(l, d2, x.blocks) && d2[l.Head()] == head
      && (forall i :: 0 <= i < |x.blocks| ==> l.Slot(i) in c2)
      && SlotWrites(l, x.blocks, c2) == InstallWrites(l, x)
  {
    var ws := LogWrites(l, x);
    AfterLog(l, x, d, c);
    ApplySingle(Apply(d, ws), l.Head(), head);
    ApplySingle(Apply(c, ws), l.Head(), head);
    var c2 := Apply(Apply(c, ws), [Write(l.Head(), head)]);
    forall i | 0 <= i < |x.blocks| ensures l.Slot(i) in c2 && c2[l.Slot(i)] == x.content[l.Home(x.blocks[i])] {
      SlotsHold(l, x, c, |x.blocks|, i);
      assert ws[..|x.blocks|] == ws;
    }
  }

  lemma AfterInstall(l: Layout, x: Txn, d: map<Key, Block>)
    requires HasContent(l, x) && OnDisk(l, d, x.blocks)
    ensures Apply(d, InstallWrites(l, x)).Keys == d.Keys
    ensures Apply(d, InstallWrites(l, x))[l.Head()] == d[l.Head()]
  {
    assert l.InLog(l.Head());
    ApplyKeys(d, InstallWrites(l, x));
    ApplyOther(d, InstallWrites(l, x), l.Head());
  }

  /** The four stages together are CommitWrites. */
  lemma CommitTrace(l: Layout, x: Txn, d: map<Key, Block>)
    requires HasContent(l, x) && Words(x.blocks) && l.Head() in d && x.blocks != []
    ensures var head := WithHeader(d[l.Head()], x.blocks);
            var hw, cw := [Write(l.Head(), head)], [Write(l.Head(), WithHeader(head, []))];
      && CommitWrites(l, d, x) == LogWrites(l, x) + hw + InstallWrites(l, x) + cw
      && Apply(d, CommitWrites(l, d, x)) ==
         Apply(Apply(Apply(Apply(d, LogWrites(l, x)), hw), InstallWrites(l, x)), cw)
  {
    var head := WithHeader(d[l.Head()], x.blocks);
    var hw, cw := [Write(l.Head(), head)], [Write(l.Head(), WithHeader(head, []))];
    ApplyConcat(d, LogWrites(l, x), hw);
    ApplyConcat(d, LogWrites(l, x) + hw, InstallWrites(l, x));
    ApplyConcat(d, LogWrites(l, x) + hw + InstallWrites(l, x), cw);
  }

  /** With nothing pinned any more, disk and plain map agree. */
  lemma CleanCache(buf: seq<Buf>, slot: map<Key, nat>, disk: map<Key, Block>, content: map<Key, Block>,
                   others: set<nat>)
    requires Coherent(buf, slot, disk, content) && Using(buf, disk, others, {}) && Pinned(buf, slot) == {}
    ensures content == disk
  {
    forall k | k in disk ensures content[k] == disk[k] {
      SettledContent(buf, slot, disk, content, others, k);
    }
  }

  /** The plain map before the commit is the disk the transaction asks for. */
  lemma AfterIsContent(l: Layout, x: Txn, buf: seq<Buf>, slot: map<Key, nat>, d: map<Key, Block>, others: set<nat>)
    requires Coherent(buf, slot, d, x.content) && Using(buf, d, others, {}) && HasContent(l, x)
    requires Pinned(buf, slot) == Homes(l, x.blocks)
    ensures After(l, d, x) == x.content
  {
    forall k | k in d ensures After(l, d, x)[k] == x.content[k] {
      if k.dev == l.dev && k.blockno in x.blocks {
      } else {
        assert k !in Homes(l, x.blocks);
        SettledContent(buf, slot, d, x.content, others, k);
      }
    }
  }

  /** Crash atomicity in terms of the cache: whatever the cache showed when the commit began
      is on disk after recovery if the header write was made, and none of it otherwise. */
  lemma CrashDuringCommit(l: Layout, x: Txn, buf: seq<Buf>, slot: map<Key, nat>, d: map<Key, Block>,
                          others: set<nat>, k: nat, cuts: seq<nat>, e: map<Key, Block>)
    requires Coherent(buf, slot, d, x.content) && Using(buf, d, others, {}) && Pinned(buf, slot) == Homes(l, x.blocks)
    requires Idle(l, d) && GoodTxn(l, d, x) && k <= |CommitWrites(l, d, x)|
    requires Interrupted(l, Apply(d, CommitWrites(l, d, x)[..k]), cuts, e)
    ensures Formatted(l, e)
    ensures SameHomes(l, Recover(l, e), if k > |x.blocks| then x.content else d)
  {
    hide Coherent, Pinned, Apply, CommitWrites, Recover, RecoverWrites, Homes;
    AfterIsContent(l, x, buf, slot, d, others);
    CrashAtomicity(l, d, x, k, cuts, e);
  }

  lemma CommitResult(l: Layout, x: Txn, d: map<Key, Block>)
    requires Idle(l, d) && GoodTxn(l, d, x)
    ensures var e := Apply(d, CommitWrites(l, d, x));
            Idle(l, e) && SameHomes(l, e, After(l, d, x)) && Loggable(l, e, [])
  {
    var ws := CommitWrites(l, d, x);
    CommitPrefix(l, d, x, |ws|);
    assert ws[..|ws|] == ws;
    if x.blocks == [] {
      assert After(l, d, x) == d;
    }
  }

  lemma OnDiskKeys(l: Layout, d: map<Key, Block>, content: map<Key, Block>, blocks: seq<nat>)
    requires OnDisk(l, d, blocks) && d.Keys == content.Keys
    ensures OnDisk(l, content, blocks) && |blocks| < l.size
    ensures HasContent(l, Txn(blocks, content))
    ensures (forall i :: 0 <= i < |blocks| ==> l.Slot(i) in content) && |SlotWrites(l, blocks, content)| == |blocks|
  {
  }

  lemma NoWritesYet(l: Layout, blocks: seq<nat>, pinned: set<Key>, d: map<Key, Block>, c: map<Key, Block>,
                    ws: seq<Write>)
    ensures ws[..0] == [] && Apply(d, ws[..0]) == d && Apply(c, ws[..0]) == c
    ensures pinned - Homes(l, blocks[..0]) == pinned
  {
    assert ws[..0] == [];
  }

  /** What one round of install_trans finds and leaves pinned. */
  lemma InstallRound(l: Layout, d: map<Key, Block>, blocks: seq<nat>, pinned: set<Key>, t: nat, readers: nat)
    requires t < |blocks| < l.size && forall i, j :: 0 <= i < j < |blocks| ==> blocks[i] != blocks[j]
    requires |pinned| + readers < NBUF && forall k :: k in pinned ==> !l.InLog(k)
    requires Homes(l, blocks) <= pinned || (pinned == {} && readers + 1 < NBUF)
    ensures var now := pinned - Homes(l, blocks[..t]);
      && l.Slot(t) !in now && now - {l.Home(blocks[t])} == pinned - Homes(l, blocks[..t + 1])
      && |now| + readers < NBUF && (l.Home(blocks[t]) in now || |now| + readers + 1 < NBUF)
  {
    assert blocks[..t + 1] == blocks[..t] + [blocks[t]];
    assert Homes(l, blocks[..t + 1]) == Homes(l, blocks[..t]) + {l.Home(blocks[t])};
    SubsetSize(pinned - Homes(l, blocks[..t]), pinned);
    assert l.Home(blocks[t]) in Homes(l, blocks);
    assert l.InLog(l.Slot(t));
  }
}
