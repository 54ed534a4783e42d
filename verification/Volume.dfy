/** The file layer of fs.c as values: inodes, block contents, the free bitmap, and which
    pointer slot owns which block. */
module Volume {
  import opened Blocks
  import opened Params

  const NDIRECT := 12
  const NINDIRECT := 128
  const MAXFILE := 140

  /** kind is the word of type and major, links the word of minor and nlink. */
  datatype Inode = Inode(kind: nat, links: nat, size: nat, addrs: seq<nat>) {
    predicate SameHead(other: Inode) { kind == other.kind && links == other.links }
  }

  /** A place that can hold a block number: a direct address, the address of the indirect
      block, or an entry of the indirect block. */
  datatype Slot = Direct(inum: nat, i: nat) | Pointer(inum: nat) | Indirect(inum: nat, j: nat)

  /** Blocks below nmeta hold the boot block, superblock, log, inodes and bitmap. */
  datatype Vol = Vol(nmeta: nat, inodes: seq<Inode>, blocks: seq<Block>, used: seq<bool>)

  ghost predicate Shape(v: Vol) {
    && 1 <= v.nmeta <= |v.used| == |v.blocks| < UINT_LIMIT
    && (forall k :: 0 <= k < |v.inodes| ==> |v.inodes[k].addrs| == NDIRECT + 1)
    && (forall k :: 0 <= k < |v.inodes| ==> v.inodes[k].addrs[NDIRECT] < |v.blocks|)
  }

  predicate ValidSlot(v: Vol, s: Slot) {
    s.inum < |v.inodes| && (s.Direct? ==> s.i < NDIRECT) && (s.Indirect? ==> s.j < NINDIRECT)
  }

  /** The block number stored in a slot; 0 is none. */
  function Ptr(v: Vol, s: Slot): nat
    requires Shape(v) && ValidSlot(v, s)
  {
    var addrs := v.inodes[s.inum].addrs;
    match s
    case Direct(_, i) => addrs[i]
    case Pointer(_) => addrs[NDIRECT]
    case Indirect(_, j) => if addrs[NDIRECT] == 0 then 0 else GetWord(v.blocks[addrs[NDIRECT]], j)
  }

  /** Every block in use is metadata or belongs to exactly one slot of one inode. */
  ghost predicate Owned(v: Vol, owner: map<nat, Slot>)
    requires Shape(v)
  {
    && (forall s :: ValidSlot(v, s) && Ptr(v, s) != 0 ==>
          v.nmeta <= Ptr(v, s) < |v.blocks| && Ptr(v, s) in owner && owner[Ptr(v, s)] == s)
    && (forall b :: b in owner ==> b != 0 && ValidSlot(v, owner[b]) && Ptr(v, owner[b]) == b)
    && (forall b :: 0 <= b < |v.used| ==> (v.used[b] <==> b < v.nmeta || b in owner))
  }

  /** Nothing but slot s changes, and no block but those in touched. */
  ghost predicate OnlySlot(v: Vol, w: Vol, s: Slot, touched: set<nat>)
    requires Shape(v) && Shape(w)
  {
    && |w.inodes| == |v.inodes| && |w.blocks| == |v.blocks| && w.nmeta == v.nmeta
    && (forall t :: ValidSlot(v, t) && t != s ==> Ptr(w, t) == Ptr(v, t))
    && (forall k :: 0 <= k < |v.inodes| ==> w.inodes[k].size == v.inodes[k].size && w.inodes[k].SameHead(v.inodes[k]))
    && (forall k :: 0 <= k < |v.inodes| && k != s.inum ==> w.inodes[k] == v.inodes[k])
    && (forall b :: 0 <= b < |v.blocks| && b !in touched ==> w.blocks[b] == v.blocks[b])
  }

  function WithAddr(v: Vol, inum: nat, i: nat, b: nat): Vol
    requires inum < |v.inodes| && i < |v.inodes[inum].addrs|
  {
    var ip := v.inodes[inum];
    v.(inodes := v.inodes[inum := ip.(addrs := ip.addrs[i := b])])
  }

  /** balloc's effect: the bit is set and the block zeroed. */
  function Allocated(v: Vol, b: nat): Vol
    requires b < |v.used| && b < |v.blocks|
  {
    v.(used := v.used[b := true], blocks := v.blocks[b := ZeroBlock()])
  }

  /** A block that no slot refers to can be zeroed without disturbing any slot. */
  lemma ZeroFree(v: Vol, owner: map<nat, Slot>, b: nat)
    requires Shape(v) && Owned(v, owner) && b < |v.used| && !v.used[b]
    ensures Shape(Allocated(v, b))
    ensures forall s :: ValidSlot(v, s) ==> Ptr(Allocated(v, b), s) == Ptr(v, s) && Ptr(v, s) != b
  {
    forall s | ValidSlot(v, s) ensures Ptr(Allocated(v, b), s) == Ptr(v, s) && Ptr(v, s) != b {
      assert ValidSlot(v, Pointer(s.inum));
      assert Ptr(v, Pointer(s.inum)) == v.inodes[s.inum].addrs[NDIRECT];
    }
  }

  /** From slot values to ownership: slot s now holds the fresh block b. */
  lemma OwnFresh(v: Vol, owner: map<nat, Slot>, w: Vol, s: Slot, b: nat)
    requires Shape(v) && Owned(v, owner) && Shape(w) && ValidSlot(v, s)
    requires b < |v.used| && !v.used[b] && Ptr(v, s) == 0
    requires |w.inodes| == |v.inodes| && |w.blocks| == |v.blocks| && w.nmeta == v.nmeta && w.used == v.used[b := true]
    requires forall t :: ValidSlot(v, t) && t != s ==> Ptr(w, t) == Ptr(v, t)
    requires Ptr(w, s) == b
    ensures Owned(w, owner[b := s])
  {
    var owner' := owner[b := s];
    assert b !in owner && b >= v.nmeta;
    forall t | ValidSlot(w, t) && Ptr(w, t) != 0
      ensures w.nmeta <= Ptr(w, t) < |w.blocks| && Ptr(w, t) in owner' && owner'[Ptr(w, t)] == t
    {
      assert ValidSlot(v, t);
    }
    forall c | c in owner' ensures c != 0 && ValidSlot(w, owner'[c]) && Ptr(w, owner'[c]) == c {
      if c != b { assert ValidSlot(v, owner[c]) && Ptr(v, owner[c]) == c; }
    }
  }

  /** A free block and a block in a slot are data blocks. */
  lemma DataBlock(v: Vol, owner: map<nat, Slot>, b: nat, s: Slot)
    requires Shape(v) && Owned(v, owner) && ValidSlot(v, s)
    ensures b < |v.used| && !v.used[b] ==> v.nmeta <= b
    ensures Ptr(v, s) != 0 ==> v.nmeta <= Ptr(v, s) < |v.blocks|
  {
  }

  lemma AllocDirect(v: Vol, owner: map<nat, Slot>, inum: nat, i: nat, b: nat)
    requires Shape(v) && Owned(v, owner) && ValidSlot(v, Direct(inum, i))
    requires Ptr(v, Direct(inum, i)) == 0 && b < |v.used| && !v.used[b]
    ensures var w := WithAddr(Allocated(v, b), inum, i, b);
      && Shape(w) && Owned(w, owner[b := Direct(inum, i)]) && OnlySlot(v, w, Direct(inum, i), {b})
      && Ptr(w, Direct(inum, i)) == b && w.blocks[b] == ZeroBlock()
  {
    var w := WithAddr(Allocated(v, b), inum, i, b);
    ZeroFree(v, owner, b);
    forall t | ValidSlot(v, t) && t != Direct(inum, i) ensures Ptr(w, t) == Ptr(v, t) {
      assert Ptr(Allocated(v, b), t) == Ptr(v, t);
    }
    OwnFresh(v, owner, w, Direct(inum, i), b);
  }

  lemma AllocPointer(v: Vol, owner: map<nat, Slot>, inum: nat, b: nat)
    requires Shape(v) && Owned(v, owner) && inum < |v.inodes|
    requires Ptr(v, Pointer(inum)) == 0 && b < |v.used| && !v.used[b]
    ensures var w := WithAddr(Allocated(v, b), inum, NDIRECT, b);
      && Shape(w) && Owned(w, owner[b := Pointer(inum)]) && OnlySlot(v, w, Pointer(inum), {b})
      && Ptr(w, Pointer(inum)) == b && w.blocks[b] == ZeroBlock()
  {
    var w := WithAddr(Allocated(v, b), inum, NDIRECT, b);
    ZeroFree(v, owner, b);
    forall t | ValidSlot(v, t) && t != Pointer(inum) ensures Ptr(w, t) == Ptr(v, t) {
      assert Ptr(Allocated(v, b), t) == Ptr(v, t);
      if t.Indirect? && t.inum == inum { ZeroWord(t.j); }
    }
    OwnFresh(v, owner, w, Pointer(inum), b);
  }

  lemma AllocIndirect(v: Vol, owner: map<nat, Slot>, inum: nat, j: nat, b: nat)
    requires Shape(v) && Owned(v, owner) && ValidSlot(v, Indirect(inum, j))
    requires Ptr(v, Pointer(inum)) != 0 && Ptr(v, Indirect(inum, j)) == 0 && b < |v.used| && !v.used[b]
    ensures var a := Ptr(v, Pointer(inum));
            var u := Allocated(v, b);
            var w := u.(blocks := u.blocks[a := PutWord(u.blocks[a], j, b)]);
      && a != b && Shape(w) && Owned(w, owner[b := Indirect(inum, j)]) && OnlySlot(v, w, Indirect(inum, j), {a, b})
      && Ptr(w, Indirect(inum, j)) == b && w.blocks[b] == ZeroBlock()
  {
    var a := Ptr(v, Pointer(inum));
    var u := Allocated(v, b);
    var w := u.(blocks := u.blocks[a := PutWord(u.blocks[a], j, b)]);
    ZeroFree(v, owner, b);
    assert a != b;
    GetPutSame(u.blocks[a], j, b);
    forall t | ValidSlot(v, t) && t != Indirect(inum, j) ensures Ptr(w, t) == Ptr(v, t) {
      assert Ptr(u, t) == Ptr(v, t);
      if t.Indirect? {
        assert ValidSlot(v, Pointer(t.inum));
        if Ptr(v, Pointer(t.inum)) == a {
          assert owner[a] == Pointer(t.inum);
          GetPutOther(u.blocks[a], j, b, t.j);
        }
      }
    }
    OwnFresh(v, owner, w, Indirect(inum, j), b);
  }

  /** Overwriting a data block changes no slot. */
  lemma DataWrite(v: Vol, owner: map<nat, Slot>, s: Slot, data: Block)
    requires Shape(v) && Owned(v, owner) && ValidSlot(v, s) && !s.Pointer? && Ptr(v, s) != 0
    ensures var w := v.(blocks := v.blocks[Ptr(v, s) := data]);
      && Shape(w) && Owned(w, owner)
      && (forall t :: ValidSlot(v, t) ==> Ptr(w, t) == Ptr(v, t))
  {
    var w := v.(blocks := v.blocks[Ptr(v, s) := data]);
    forall t | ValidSlot(v, t) ensures Ptr(w, t) == Ptr(v, t) {
      if t.Indirect? {
        assert ValidSlot(v, Pointer(t.inum));
        assert Ptr(v, Pointer(t.inum)) != Ptr(v, s);
      }
    }
    forall t | ValidSlot(w, t) && Ptr(w, t) != 0
      ensures w.nmeta <= Ptr(w, t) < |w.blocks| && Ptr(w, t) in owner && owner[Ptr(w, t)] == t
    {
      assert ValidSlot(v, t);
    }
    forall c | c in owner ensures c != 0 && ValidSlot(w, owner[c]) && Ptr(w, owner[c]) == c {
      assert ValidSlot(v, owner[c]);
    }
  }

  // Files as byte sequences

  function SlotOf(inum: nat, bn: nat): Slot {
    if bn < NDIRECT then Direct(inum, bn) else Indirect(inum, bn - NDIRECT)
  }

  /** Block bn of the file is allocated exactly when the first len bytes reach into it. */
  ghost predicate Extent(v: Vol, inum: nat, len: nat)
    requires Shape(v) && inum < |v.inodes|
  {
    && (forall bn: nat :: bn < MAXFILE ==> (Ptr(v, SlotOf(inum, bn)) != 0 <==> bn * BSIZE < len))
    && (Ptr(v, Pointer(inum)) != 0 <==> NDIRECT * BSIZE < len)
    && len <= MAXFILE * BSIZE
  }

  ghost predicate FileOk(v: Vol, inum: nat)
    requires Shape(v) && inum < |v.inodes|
  {
    Extent(v, inum, v.inodes[inum].size)
  }

  function ByteAt(v: Vol, inum: nat, k: nat): Byte
    requires Shape(v) && inum < |v.inodes| && k < MAXFILE * BSIZE
    requires Ptr(v, SlotOf(inum, k / BSIZE)) < |v.blocks|
  {
    v.blocks[Ptr(v, SlotOf(inum, k / BSIZE))][k % BSIZE]
  }

  ghost predicate Readable(v: Vol, inum: nat, len: nat)
    requires Shape(v) && inum < |v.inodes|
  {
    && len <= MAXFILE * BSIZE
    && (forall bn: nat :: bn < MAXFILE && bn * BSIZE < len ==> 0 != Ptr(v, SlotOf(inum, bn)) < |v.blocks|)
  }

  /** The file's contents: what readi and writei implement. */
  ghost function Content(v: Vol, inum: nat): seq<Byte>
    requires Shape(v) && inum < |v.inodes| && Readable(v, inum, v.inodes[inum].size)
  {
    seq(v.inodes[inum].size, k requires 0 <= k < v.inodes[inum].size => ByteAt(v, inum, k))
  }

  lemma ContentAt(v: Vol, inum: nat, k: nat)
    requires Shape(v) && inum < |v.inodes| && Readable(v, inum, v.inodes[inum].size) && k < v.inodes[inum].size
    ensures k < MAXFILE * BSIZE && k / BSIZE < MAXFILE && 0 != Ptr(v, SlotOf(inum, k / BSIZE)) < |v.blocks|
    ensures |Content(v, inum)| == v.inodes[inum].size && Content(v, inum)[k] == ByteAt(v, inum, k)
  {
  }

  /** Where byte k of a file is: in a block of addrs, or in one listed in the block that the
      last address points to. */
  lemma BytePlace(v: Vol, owner: map<nat, Slot>, inum: nat, k: nat)
    requires Shape(v) && Owned(v, owner) && inum < |v.inodes| && FileOk(v, inum) && k < v.inodes[inum].size
    ensures Readable(v, inum, v.inodes[inum].size) && k < |Content(v, inum)|
    ensures var addrs := v.inodes[inum].addrs;
      && |addrs| == 12 + 1 && addrs[12] < |v.blocks| && k / 512 < 12 + 128
      && var b := if k / 512 < 12 then addrs[k / 512] else GetWord(v.blocks[addrs[12]], k / 512 - 12);
      && v.nmeta <= b < |v.blocks| && b in owner && Content(v, inum)[k] == v.blocks[b][k % 512]
      && (k / 512 >= 12 ==> v.nmeta <= addrs[12] && addrs[12] in owner)
  {
    ExtentReadable(v, owner, inum, v.inodes[inum].size);
    ContentAt(v, inum, k);
    assert ValidSlot(v, SlotOf(inum, k / BSIZE)) && ValidSlot(v, Pointer(inum));
  }

  lemma ExtentReadable(v: Vol, owner: map<nat, Slot>, inum: nat, len: nat)
    requires Shape(v) && Owned(v, owner) && inum < |v.inodes| && Extent(v, inum, len)
    ensures Readable(v, inum, len)
  {
    forall bn: nat | bn < MAXFILE && bn * BSIZE < len ensures 0 != Ptr(v, SlotOf(inum, bn)) < |v.blocks| {
      assert ValidSlot(v, SlotOf(inum, bn));
    }
  }

  /** What bmap may do: fill the slot of block bn, and the indirect pointer on the way. */
  ghost predicate Bmapped(v: Vol, w: Vol, inum: nat, bn: nat)
    requires Shape(v) && Shape(w) && inum < |v.inodes| && bn < MAXFILE
  {
    && |w.inodes| == |v.inodes| && |w.blocks| == |v.blocks| && w.nmeta == v.nmeta
    && (forall t :: ValidSlot(v, t) && t != SlotOf(inum, bn) && t != Pointer(inum) ==> Ptr(w, t) == Ptr(v, t))
    && Ptr(w, SlotOf(inum, bn)) != 0
    && (Ptr(v, SlotOf(inum, bn)) != 0 ==> w == v)
    && (bn < NDIRECT ==> Ptr(w, Pointer(inum)) == Ptr(v, Pointer(inum)))
    && (bn >= NDIRECT ==> Ptr(w, Pointer(inum)) != 0)
    && (Ptr(v, Pointer(inum)) != 0 ==> Ptr(w, Pointer(inum)) == Ptr(v, Pointer(inum)))
    && (forall t :: ValidSlot(v, t) && !t.Pointer? && 0 != Ptr(v, t) < |v.blocks| ==>
      w.blocks[Ptr(v, t)] == v.blocks[Ptr(v, t)])
    && (forall k :: 0 <= k < |v.inodes| ==> w.inodes[k].size == v.inodes[k].size && w.inodes[k].SameHead(v.inodes[k]))
    && (forall k :: 0 <= k < |v.inodes| && k != inum ==> w.inodes[k] == v.inodes[k])
  }

  /** Filling the next block grows the extent by up to one block. */
  lemma ExtentGrows(v: Vol, w: Vol, inum: nat, bn: nat, len: nat, len': nat)
    requires Shape(v) && Shape(w) && inum < |v.inodes| && bn < MAXFILE
    requires Extent(v, inum, len) && Bmapped(v, w, inum, bn) && bn * BSIZE <= len
    requires len <= len' && (len' == len || len' <= (bn + 1) * BSIZE) && bn * BSIZE < len'
    ensures Extent(w, inum, len')
  {
    forall c: nat | c < MAXFILE ensures Ptr(w, SlotOf(inum, c)) != 0 <==> c * BSIZE < len' {
      assert ValidSlot(v, SlotOf(inum, c));
      if c != bn { assert SlotOf(inum, c) != SlotOf(inum, bn); }
    }
  }

  lemma BytesKept(v: Vol, owner: map<nat, Slot>, w: Vol, inum: nat, bn: nat, f: nat, k: nat)
    requires Shape(v) && Owned(v, owner) && Shape(w) && inum < |v.inodes| && bn < MAXFILE && Bmapped(v, w, inum, bn)
    requires f < |v.inodes| && k < MAXFILE * BSIZE && Ptr(v, SlotOf(f, k / BSIZE)) != 0
    ensures Ptr(v, SlotOf(f, k / BSIZE)) < |v.blocks| && Ptr(w, SlotOf(f, k / BSIZE)) == Ptr(v, SlotOf(f, k / BSIZE))
    ensures ByteAt(w, f, k) == ByteAt(v, f, k)
  {
    assert ValidSlot(v, SlotOf(f, k / BSIZE));
  }

  /** Part of a block replaced, as the memmove in writei does. */
  function Splice(b: Block, at: nat, bytes: seq<Byte>): Block
    requires at + |bytes| <= BSIZE
  {
    b[..at] + bytes + b[at + |bytes|..]
  }

  /** Writing into one block of a file changes those bytes of that file only. */
  lemma BytesWritten(v: Vol, owner: map<nat, Slot>, inum: nat, off: nat, bytes: seq<Byte>, f: nat, k: nat)
    requires Shape(v) && Owned(v, owner) && inum < |v.inodes| && off < MAXFILE * BSIZE
    requires off % BSIZE + |bytes| <= BSIZE && Ptr(v, SlotOf(inum, off / BSIZE)) != 0
    requires f < |v.inodes| && k < MAXFILE * BSIZE && Ptr(v, SlotOf(f, k / BSIZE)) != 0
    ensures var a := Ptr(v, SlotOf(inum, off / BSIZE));
      && a < |v.blocks| && Ptr(v, SlotOf(f, k / BSIZE)) < |v.blocks|
      && var w := v.(blocks := v.blocks[a := Splice(v.blocks[a], off % BSIZE, bytes)]);
      && Shape(w) && Ptr(w, SlotOf(f, k / BSIZE)) == Ptr(v, SlotOf(f, k / BSIZE))
      && ByteAt(w, f, k) == if f == inum && off <= k < off + |bytes| then bytes[k - off] else ByteAt(v, f, k)
  {
    var s, t := SlotOf(inum, off / BSIZE), SlotOf(f, k / BSIZE);
    assert ValidSlot(v, s) && ValidSlot(v, t);
    var a := Ptr(v, s);
    DataWrite(v, owner, s, Splice(v.blocks[a], off % BSIZE, bytes));
    if f == inum && off <= k < off + |bytes| {
      SameIndex(off, k, |bytes|);
    }
    if Ptr(v, t) == a {
      assert s == t;
      SameBlock(inum, off, k);
    }
  }

  lemma SameBlock(inum: nat, off: nat, k: nat)
    requires SlotOf(inum, off / BSIZE) == SlotOf(inum, k / BSIZE)
    ensures off / BSIZE == k / BSIZE && k - off == k % BSIZE - off % BSIZE
  {
  }

  lemma SameIndex(off: nat, k: nat, m: nat)
    requires off % BSIZE + m <= BSIZE && off <= k < off + m
    ensures k / BSIZE == off / BSIZE && k % BSIZE == off % BSIZE + (k - off)
  {
  }

  /** File f has the same inode, the same blocks and the same bytes in them. */
  ghost predicate FileKept(v: Vol, w: Vol, f: nat)
    requires Shape(v) && Shape(w)
  {
    && f < |v.inodes| == |w.inodes| && |w.blocks| == |v.blocks| && w.inodes[f] == v.inodes[f]
    && (forall bn: nat :: bn < MAXFILE ==>
          && Ptr(w, SlotOf(f, bn)) == Ptr(v, SlotOf(f, bn))
          && (0 != Ptr(v, SlotOf(f, bn)) < |v.blocks| ==>
                w.blocks[Ptr(v, SlotOf(f, bn))] == v.blocks[Ptr(v, SlotOf(f, bn))]))
  }

  lemma KeptContent(v: Vol, w: Vol, f: nat)
    requires Shape(v) && Shape(w) && FileKept(v, w, f)
    ensures FileOk(v, f) ==> FileOk(w, f)
    ensures Readable(v, f, v.inodes[f].size) ==> Readable(w, f, w.inodes[f].size) && Content(w, f) == Content(v, f)
  {
    if Readable(v, f, v.inodes[f].size) {
      forall k: nat | k < v.inodes[f].size
        ensures Ptr(v, SlotOf(f, k / BSIZE)) < |v.blocks| && ByteAt(w, f, k) == ByteAt(v, f, k)
      {
        assert k / BSIZE < MAXFILE;
      }
    }
  }

  lemma KeptTrans(u: Vol, v: Vol, w: Vol, f: nat)
    requires Shape(u) && Shape(v) && Shape(w) && FileKept(u, v, f) && FileKept(v, w, f)
    ensures FileKept(u, w, f)
  {
    forall bn: nat | bn < MAXFILE ensures Ptr(w, SlotOf(f, bn)) == Ptr(u, SlotOf(f, bn)) {
      assert Ptr(v, SlotOf(f, bn)) == Ptr(u, SlotOf(f, bn));
    }
  }

  ghost function Max(a: nat, b: nat): nat { if a < b then b else a }

  /** The first len bytes, or as far as the write reaches, with bytes written at off. */
  ghost predicate Wrote(v: Vol, w: Vol, inum: nat, len: nat, off: nat, bytes: seq<Byte>)
    requires Shape(v) && Shape(w) && inum < |v.inodes| == |w.inodes|
  {
    && Readable(v, inum, len) && Readable(w, inum, Max(len, off + |bytes|)) && off <= len
    && (forall k: nat :: k < Max(len, off + |bytes|) ==>
          ByteAt(w, inum, k) == if off <= k < off + |bytes| then bytes[k - off] else ByteAt(v, inum, k))
  }

  lemma WroteNothing(v: Vol, inum: nat, len: nat, off: nat)
    requires Shape(v) && inum < |v.inodes| && Readable(v, inum, len) && off <= len
    ensures Wrote(v, v, inum, len, off, [])
  {
  }

  lemma WroteMore(u: Vol, v: Vol, w: Vol, inum: nat, len: nat, off: nat, done: seq<Byte>, bytes: seq<Byte>)
    requires Shape(u) && Shape(v) && Shape(w) && inum < |u.inodes| == |v.inodes| == |w.inodes|
    requires Wrote(u, v, inum, len, off, done)
    requires Wrote(v, w, inum, Max(len, off + |done|), off + |done|, bytes)
    ensures Wrote(u, w, inum, len, off, done + bytes)
  {
    var end := Max(len, off + |done|);
    forall k: nat | k < Max(len, off + |done + bytes|)
      ensures ByteAt(w, inum, k) ==
        if off <= k < off + |done + bytes| then (done + bytes)[k - off] else ByteAt(u, inum, k)
    {
      if k < end {
        assert ByteAt(v, inum, k) == if off <= k < off + |done| then done[k - off] else ByteAt(u, inum, k);
      }
    }
  }

  /** bmap and the memmove of one writei iteration, together. */
  lemma ChunkBytes(v: Vol, owner: map<nat, Slot>, w: Vol, owner': map<nat, Slot>, inum: nat, len: nat, off: nat,
                   bytes: seq<Byte>)
    requires Shape(v) && Owned(v, owner) && Shape(w) && Owned(w, owner') && inum < |v.inodes|
    requires off <= len && off % BSIZE + |bytes| <= BSIZE && off + |bytes| <= MAXFILE * BSIZE && |bytes| > 0
    requires Extent(v, inum, len) && Bmapped(v, w, inum, off / BSIZE)
    ensures var a := Ptr(w, SlotOf(inum, off / BSIZE));
      && w.nmeta <= a < |w.blocks|
      && var x := w.(blocks := w.blocks[a := Splice(w.blocks[a], off % BSIZE, bytes)]);
      && Shape(x) && Owned(x, owner') && Extent(x, inum, Max(len, off + |bytes|))
      && Wrote(v, x, inum, len, off, bytes) && Ptr(x, Pointer(inum)) == Ptr(w, Pointer(inum))
  {
    var s := SlotOf(inum, off / BSIZE);
    var a := Ptr(w, s);
    var end := Max(len, off + |bytes|);
    assert ValidSlot(w, s);
    var x := w.(blocks := w.blocks[a := Splice(w.blocks[a], off % BSIZE, bytes)]);
    DataWrite(w, owner', s, Splice(w.blocks[a], off % BSIZE, bytes));
    ExtentGrows(v, w, inum, off / BSIZE, len, end);
    SamePtrsExtent(w, x, inum, end);
    ExtentReadable(v, owner, inum, len);
    ExtentReadable(x, owner', inum, end);
    forall k: nat | k < end
      ensures ByteAt(x, inum, k) == if off <= k < off + |bytes| then bytes[k - off] else ByteAt(v, inum, k)
    {
      ChunkByte(v, owner, w, owner', inum, len, off, bytes, k);
    }
  }

  lemma ChunkByte(v: Vol, owner: map<nat, Slot>, w: Vol, owner': map<nat, Slot>, inum: nat, len: nat, off: nat,
                  bytes: seq<Byte>, k: nat)
    requires Shape(v) && Owned(v, owner) && Shape(w) && Owned(w, owner') && inum < |v.inodes|
    requires off <= len && off % BSIZE + |bytes| <= BSIZE && off + |bytes| <= MAXFILE * BSIZE && |bytes| > 0
    requires Extent(v, inum, len) && Bmapped(v, w, inum, off / BSIZE) && k < Max(len, off + |bytes|)
    requires |w.inodes| == |v.inodes|
    ensures var a := Ptr(w, SlotOf(inum, off / BSIZE));
      && a < |w.blocks| && Ptr(w, SlotOf(inum, k / BSIZE)) != 0
      && var x := w.(blocks := w.blocks[a := Splice(w.blocks[a], off % BSIZE, bytes)]);
      && Shape(x) && Ptr(x, SlotOf(inum, k / BSIZE)) == Ptr(w, SlotOf(inum, k / BSIZE)) < |w.blocks|
      && (k < len ==> Ptr(v, SlotOf(inum, k / BSIZE)) < |v.blocks|)
      && ByteAt(x, inum, k) ==
         if off <= k < off + |bytes| then bytes[k - off] else if k < len then ByteAt(v, inum, k) else 0
  {
    hide Owned, Bmapped;
    ExtentGrows(v, w, inum, off / BSIZE, len, Max(len, off + |bytes|));
    BytesWritten(w, owner', inum, off, bytes, inum, k);
    if k < len {
      BytesKept(v, owner, w, inum, off / BSIZE, inum, k);
    }
  }

  lemma SamePtrsExtent(w: Vol, x: Vol, inum: nat, len: nat)
    requires Shape(w) && Shape(x) && inum < |w.inodes| == |x.inodes|
    requires forall t :: ValidSlot(w, t) ==> Ptr(x, t) == Ptr(w, t)
    requires Extent(w, inum, len)
    ensures Extent(x, inum, len)
  {
    forall bn: nat | bn < MAXFILE ensures Ptr(x, SlotOf(inum, bn)) == Ptr(w, SlotOf(inum, bn)) {
      assert ValidSlot(w, SlotOf(inum, bn));
    }
  }

  /** Block c of another file is neither remapped by bmap nor the block written. */
  lemma OtherBlock(v: Vol, owner: map<nat, Slot>, w: Vol, owner': map<nat, Slot>, inum: nat, bn: nat, f: nat, c: nat)
    requires Shape(v) && Owned(v, owner) && Shape(w) && Owned(w, owner') && inum < |v.inodes| && bn < MAXFILE
    requires Bmapped(v, w, inum, bn) && f < |v.inodes| && f != inum && c < MAXFILE
    ensures Ptr(w, SlotOf(f, c)) == Ptr(v, SlotOf(f, c))
    ensures Ptr(v, SlotOf(f, c)) != 0 ==>
      && Ptr(v, SlotOf(f, c)) != Ptr(w, SlotOf(inum, bn)) && Ptr(v, SlotOf(f, c)) < |v.blocks|
      && w.blocks[Ptr(v, SlotOf(f, c))] == v.blocks[Ptr(v, SlotOf(f, c))]
  {
    var s, t := SlotOf(inum, bn), SlotOf(f, c);
    assert ValidSlot(v, t) && ValidSlot(w, t) && ValidSlot(w, s);
  }

  lemma ChunkKeeps(v: Vol, owner: map<nat, Slot>, w: Vol, owner': map<nat, Slot>, inum: nat, bn: nat, data: Block,
                   f: nat)
    requires Shape(v) && Owned(v, owner) && Shape(w) && Owned(w, owner') && inum < |v.inodes| == |w.inodes|
    requires bn < MAXFILE
    requires Bmapped(v, w, inum, bn) && f < |v.inodes| && f != inum
    ensures var a := Ptr(w, SlotOf(inum, bn));
      && a < |w.blocks|
      && var x := w.(blocks := w.blocks[a := data]);
      && Shape(x) && FileKept(v, x, f)
  {
    var s := SlotOf(inum, bn);
    var a := Ptr(w, s);
    assert ValidSlot(w, s);
    var x := w.(blocks := w.blocks[a := data]);
    DataWrite(w, owner', s, data);
    forall c: nat | c < MAXFILE
      ensures Ptr(x, SlotOf(f, c)) == Ptr(v, SlotOf(f, c))
      ensures 0 != Ptr(v, SlotOf(f, c)) < |v.blocks| ==>
        x.blocks[Ptr(v, SlotOf(f, c))] == v.blocks[Ptr(v, SlotOf(f, c))]
    {
      hide Owned, Bmapped;
      assert ValidSlot(w, SlotOf(f, c));
      OtherBlock(v, owner, w, owner', inum, bn, f, c);
    }
  }

  // Truncation

  /** Slots that lose their blocks, and the blocks they lose, leave ownership intact. */
  lemma OwnLess(v: Vol, owner: map<nat, Slot>, w: Vol, owner': map<nat, Slot>)
    requires Shape(v) && Owned(v, owner) && Shape(w)
    requires |w.inodes| == |v.inodes| && |w.blocks| == |v.blocks| && w.nmeta == v.nmeta
    requires forall b :: b in owner' ==> b in owner && owner'[b] == owner[b]
    requires forall t :: ValidSlot(v, t) ==> Ptr(w, t) == if Ptr(v, t) in owner' then Ptr(v, t) else 0
    requires forall b :: 0 <= b < |w.used| ==> (w.used[b] <==> b < w.nmeta || b in owner')
    ensures Owned(w, owner')
  {
    forall t | ValidSlot(w, t) && Ptr(w, t) != 0
      ensures w.nmeta <= Ptr(w, t) < |w.blocks| && Ptr(w, t) in owner' && owner'[Ptr(w, t)] == t
    {
      assert ValidSlot(v, t);
    }
    forall c | c in owner' ensures c != 0 && ValidSlot(w, owner'[c]) && Ptr(w, owner'[c]) == c {
      assert ValidSlot(v, owner[c]);
    }
  }

  /** bfree of a direct block and clearing its address give the block back. */
  lemma FreeDirect(v: Vol, owner: map<nat, Slot>, inum: nat, i: nat)
    requires Shape(v) && Owned(v, owner) && ValidSlot(v, Direct(inum, i)) && Ptr(v, Direct(inum, i)) != 0
    ensures var b := Ptr(v, Direct(inum, i));
      && b < |v.used| && v.used[b] && b in owner && owner[b] == Direct(inum, i)
      && var w := WithAddr(v.(used := v.used[b := false]), inum, i, 0);
      && Shape(w) && Owned(w, owner - {b})
      && (forall t :: ValidSlot(v, t) ==> Ptr(w, t) == if t == Direct(inum, i) then 0 else Ptr(v, t))
  {
    assert ValidSlot(v, Direct(inum, i));
    var b := Ptr(v, Direct(inum, i));
    var w := WithAddr(v.(used := v.used[b := false]), inum, i, 0);
    assert 0 !in owner;
    OwnLess(v, owner, w, owner - {b});
  }

  /** The indirect blocks of an inode: its entries below j, and the pointer block itself. */
  ghost predicate Entry(owner: map<nat, Slot>, inum: nat, j: nat, b: nat) {
    b in owner && owner[b].Indirect? && owner[b].inum == inum && owner[b].j < j
  }

  /** The bitmap once the entries below j have been freed. */
  ghost predicate FreedEntries(v: Vol, owner: map<nat, Slot>, inum: nat, j: nat, used: seq<bool>) {
    |used| == |v.used| && forall b :: 0 <= b < |used| ==> (used[b] <==> v.used[b] && !Entry(owner, inum, j, b))
  }

  lemma FreeEntry(v: Vol, owner: map<nat, Slot>, inum: nat, j: nat, used: seq<bool>)
    requires Shape(v) && Owned(v, owner) && ValidSlot(v, Indirect(inum, j)) && FreedEntries(v, owner, inum, j, used)
    ensures var b := Ptr(v, Indirect(inum, j));
      && (b == 0 ==> FreedEntries(v, owner, inum, j + 1, used))
      && (b != 0 ==> b < |used| && used[b] && FreedEntries(v, owner, inum, j + 1, used[b := false]))
  {
    var b := Ptr(v, Indirect(inum, j));
    assert ValidSlot(v, Indirect(inum, j));
    forall c | 0 <= c < |used| && c != b ensures Entry(owner, inum, j, c) <==> Entry(owner, inum, j + 1, c) {
      assert c in owner && owner[c] == Indirect(inum, j) ==> c == b;
    }
    if b == 0 {
      assert !Entry(owner, inum, j + 1, 0) && !Entry(owner, inum, j, 0);
    }
  }

  ghost function WithoutIndirect(owner: map<nat, Slot>, inum: nat): map<nat, Slot> {
    map b | b in owner && !(owner[b].inum == inum && !owner[b].Direct?) :: owner[b]
  }

  lemma FreePointer(v: Vol, owner: map<nat, Slot>, inum: nat, used: seq<bool>)
    requires Shape(v) && Owned(v, owner) && inum < |v.inodes| && FreedEntries(v, owner, inum, NINDIRECT, used)
    requires Ptr(v, Pointer(inum)) != 0
    ensures var a := Ptr(v, Pointer(inum));
      && a < |used| && used[a]
      && var w := WithAddr(v.(used := used[a := false]), inum, NDIRECT, 0);
      && Shape(w) && Owned(w, WithoutIndirect(owner, inum))
      && (forall t :: ValidSlot(v, t) ==> Ptr(w, t) == if t.inum == inum && !t.Direct? then 0 else Ptr(v, t))
  {
    var a := Ptr(v, Pointer(inum));
    assert ValidSlot(v, Pointer(inum));
    var w := WithAddr(v.(used := used[a := false]), inum, NDIRECT, 0);
    var owner' := WithoutIndirect(owner, inum);
    forall t | ValidSlot(v, t)
      ensures Ptr(w, t) == if t.inum == inum && !t.Direct? then 0 else Ptr(v, t)
      ensures Ptr(w, t) == if Ptr(v, t) in owner' then Ptr(v, t) else 0
    {
      assert 0 !in owner;
    }
    forall c | 0 <= c < |w.used| ensures w.used[c] <==> c < w.nmeta || c in owner' {
      FreedBit(v, owner, inum, used, c);
    }
    OwnLess(v, owner, w, owner');
  }

  lemma FreedBit(v: Vol, owner: map<nat, Slot>, inum: nat, used: seq<bool>, c: nat)
    requires Shape(v) && Owned(v, owner) && inum < |v.inodes| && FreedEntries(v, owner, inum, NINDIRECT, used)
    requires Ptr(v, Pointer(inum)) != 0 && c < |used|
    ensures used[c] && c != Ptr(v, Pointer(inum)) <==> c < v.nmeta || c in WithoutIndirect(owner, inum)
  {
    assert ValidSlot(v, Pointer(inum));
    if c in owner {
      assert ValidSlot(v, owner[c]) && Ptr(v, owner[c]) == c;
    }
  }
}
