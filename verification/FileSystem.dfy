/** balloc, bfree, bmap, itrunc, readi, writei and filewrite over one volume.  A panic is
    None or false.  `logged` collects the blocks passed to log_write. */
module FileSystem {
  import opened Blocks
  import opened Params
  import opened Sets
  import opened Volume

  const BPB := 4096
  const IPB := 8
  const FILEWRITE_MAX := (MAXOPBLOCKS - 1 - 1 - 2) / 2 * 512

  datatype IoResult = Done(n: nat) | Rejected | Panic

  /** What the volume stores on the device: the free bitmap, the blocks, the inodes. */
  datatype Image = Image(used: seq<bool>, blocks: seq<Block>, dinodes: seq<Inode>)

  /** Where the inode blocks, the bitmap blocks and the data blocks start. */
  datatype Geometry = Geometry(inodestart: nat, bmapstart: nat, nmeta: nat) {
    function BitmapBlock(b: nat): nat { b / BPB + bmapstart }

    function InodeBlock(inum: nat): nat { inum / IPB + inodestart }

    /** The inodes and the bitmap have their blocks in front of the data. */
    ghost predicate Fits(nblocks: nat, ninodes: nat) {
      && inodestart <= bmapstart <= nmeta <= nblocks < UINT_LIMIT
      && (forall b: nat :: b < nblocks ==> BitmapBlock(b) < nmeta)
      && (forall k: nat :: k < ninodes ==> InodeBlock(k) < bmapstart)
    }
  }

  /** Every block in which two images differ is among the logged ones, and these are inode,
      bitmap or data blocks. */
  ghost predicate Covers(a: Image, b: Image, logged: set<nat>, g: Geometry) {
    && |a.used| == |a.blocks| && g.Fits(|a.blocks|, |a.dinodes|)
    && (forall x :: x in logged ==> g.inodestart <= x < |a.blocks|)
    && |a.used| == |b.used| && |a.blocks| == |b.blocks| && |a.dinodes| == |b.dinodes|
    && (forall x: nat :: x < |a.used| && a.used[x] != b.used[x] ==> g.BitmapBlock(x) in logged)
    && (forall x: nat :: x < |a.blocks| && a.blocks[x] != b.blocks[x] ==> x in logged)
    && (forall k: nat :: k < |a.dinodes| && a.dinodes[k] != b.dinodes[k] ==> g.InodeBlock(k) in logged)
  }

  class Fs {
    const g: Geometry
    var inodes: seq<Inode>
    var dinodes: seq<Inode>
    var blocks: seq<Block>
    var used: seq<bool>
    ghost var owner: map<nat, Slot>
    ghost var logged: set<nat>
    ghost var base: Image

    /** mkfs, before it creates the root directory: nmeta blocks in use, all inodes free. */
    constructor (nblocks: nat, ninodes: nat, g: Geometry)
      requires g.Fits(nblocks, ninodes) && g.nmeta >= 1
      ensures Valid() && this.g == g && logged == {}
      ensures |used| == nblocks && forall b: nat :: b < nblocks ==> (used[b] <==> b < g.nmeta)
      ensures |inodes| == ninodes && forall k: nat :: k < ninodes ==> inodes[k] == EmptyInode()
    {
      var din := seq(ninodes, _ => EmptyInode());
      var blk := seq(nblocks, _ => ZeroBlock());
      var bits := seq(nblocks, b => b < g.nmeta);
      this.g, inodes, dinodes, blocks, used := g, din, din, blk, bits;
      owner, logged, base := map[], {}, Image(bits, blk, din);
      new;
      EmptyVolume(V());
      CoversSelf(base, g);
    }

    ghost function V(): Vol
      reads this
    {
      Vol(g.nmeta, inodes, blocks, used)
    }

    ghost function I(): Image
      reads this
    {
      Image(used, blocks, dinodes)
    }

    /** Block ownership, for the in-memory inodes; and whatever differs from the image at the
        start of the transaction has been logged. */
    ghost predicate Sound()
      reads this
    {
      Shape(V()) && Owned(V(), owner) && Covers(base, I(), logged, g)
    }

    /** Between operations: ownership, no holes, and the inode cache is written through. */
    ghost predicate Valid()
      reads this
    {
      && Sound()
      && (forall k: nat :: k < |inodes| ==> FileOk(V(), k))
      && dinodes == inodes
    }

    /** First fit over the bitmap, one bitmap block at a time. */
    method Balloc() returns (r: Option<nat>)
      requires |used| == |blocks|
      modifies this`used, this`blocks, this`logged
      ensures r.None? ==> (forall b :: 0 <= b < |used| ==> used[b]) && used == old(used) && blocks == old(blocks)
      ensures r.Some? ==>
        && r.value < |old(used)| && !old(used)[r.value] && (forall b :: 0 <= b < r.value ==> old(used)[b])
        && used == old(used)[r.value := true] && blocks == old(blocks)[r.value := ZeroBlock()]
        && logged == old(logged) + {g.BitmapBlock(r.value), r.value}
    {
      var b := 0;
      while b < |used|
        invariant 0 <= b && forall c :: 0 <= c < b && c < |used| ==> used[c]
        invariant used == old(used) && blocks == old(blocks) && logged == old(logged)
        decreases |used| - b
      {
        var bi := 0;
        while bi < BPB && b + bi < |used|
          invariant 0 <= bi <= BPB && forall c :: 0 <= c < b + bi && c < |used| ==> used[c]
          invariant used == old(used) && blocks == old(blocks) && logged == old(logged)
        {
          if !used[b + bi] {
            used := used[b + bi := true];
            logged := logged + {g.BitmapBlock(b + bi)};
            blocks := blocks[b + bi := ZeroBlock()];
            logged := logged + {b + bi};
            return Some(b + bi);
          }
          bi := bi + 1;
        }
        b := b + BPB;
      }
      return None;
    }

    method Bfree(b: nat) returns (ok: bool)
      requires b < |used|
      modifies this`used, this`logged
      ensures ok == old(used)[b]
      ensures used == old(used)[b := false]
      ensures ok ==> logged == old(logged) + {g.BitmapBlock(b)}
    {
      if !used[b] {
        return false;
      }
      used := used[b := false];
      logged := logged + {g.BitmapBlock(b)};
      return true;
    }

    /** bmap below NDIRECT. */
    method BmapDirect(inum: nat, bn: nat) returns (r: Option<nat>, ghost bits: set<nat>)
      requires Sound() && inum < |inodes| && bn < NDIRECT
      modifies this`used, this`blocks, this`logged, this`inodes, this`owner
      ensures r.None? ==> forall b :: 0 <= b < |used| ==> used[b]
      ensures r.Some? ==>
        && Sound() && Bmapped(old(V()), V(), inum, bn) && r.value == Ptr(V(), SlotOf(inum, bn))
        && logged <= old(logged) + bits + {r.value}
        && |bits| <= (if old(Ptr(V(), SlotOf(inum, bn))) == 0 then 1 else 0)
      ensures old(Ptr(V(), SlotOf(inum, bn))) != 0 ==> r.Some? && logged == old(logged) && owner == old(owner)
    {
      hide Covers, Owned, OnlySlot;
      bits := {};
      var addr := inodes[inum].addrs[bn];
      if addr == 0 {
        ghost var v, i, logged0 := V(), I(), logged;
        r := Balloc();
        if r.None? {
          return;
        }
        addr := r.value;
        DataBlock(v, owner, addr, Direct(inum, bn));
        AllocDirect(v, owner, inum, bn, addr);
        CoverAlloc(base, i, logged0, g, addr);
        inodes := inodes[inum := inodes[inum].(addrs := inodes[inum].addrs[bn := addr])];
        owner := owner[addr := Direct(inum, bn)];
        bits := {g.BitmapBlock(addr)};
        DirectBmapped(v, owner, V(), inum, bn, addr);
      }
      return Some(addr), bits;
    }

    /** The first half of bmap past NDIRECT: find or allocate the indirect block. */
    method LoadPointer(inum: nat) returns (r: Option<nat>, ghost bits: set<nat>)
      requires Sound() && inum < |inodes|
      modifies this`used, this`blocks, this`logged, this`inodes, this`owner
      ensures r.None? ==> forall b :: 0 <= b < |used| ==> used[b]
      ensures r.Some? ==>
        && Sound() && |inodes| == |old(inodes)| && r.value == Ptr(V(), Pointer(inum)) != 0
        && (if old(Ptr(V(), Pointer(inum))) != 0 then V() == old(V())
            else OnlySlot(old(V()), V(), Pointer(inum), {r.value}))
        && logged <= old(logged) + bits + {r.value}
        && |bits| <= (if old(Ptr(V(), Pointer(inum))) == 0 then 1 else 0)
      ensures old(Ptr(V(), Pointer(inum))) != 0 ==> r.Some? && logged == old(logged) && owner == old(owner)
    {
      hide Covers, Owned, OnlySlot;
      bits := {};
      var addr := inodes[inum].addrs[NDIRECT];
      if addr == 0 {
        ghost var v, i, logged0 := V(), I(), logged;
        r := Balloc();
        if r.None? {
          return;
        }
        addr := r.value;
        DataBlock(v, owner, addr, Pointer(inum));
        AllocPointer(v, owner, inum, addr);
        CoverAlloc(base, i, logged0, g, addr);
        inodes := inodes[inum := inodes[inum].(addrs := inodes[inum].addrs[NDIRECT := addr])];
        owner := owner[addr := Pointer(inum)];
        bits := {g.BitmapBlock(addr)};
        assert ValidSlot(V(), Pointer(inum));
      }
      return Some(addr), bits;
    }

    /** The second half: find or allocate the entry in the indirect block. */
    method LoadEntry(inum: nat, j: nat) returns (r: Option<nat>, ghost bits: set<nat>)
      requires Sound() && inum < |inodes| && j < NINDIRECT && Ptr(V(), Pointer(inum)) != 0
      modifies this`used, this`blocks, this`logged, this`owner
      ensures r.None? ==> forall b :: 0 <= b < |used| ==> used[b]
      ensures r.Some? ==>
        && Sound() && r.value == Ptr(V(), Indirect(inum, j)) != 0
        && Ptr(V(), Pointer(inum)) == old(Ptr(V(), Pointer(inum)))
        && (if old(Ptr(V(), Indirect(inum, j))) != 0 then V() == old(V())
            else OnlySlot(old(V()), V(), Indirect(inum, j), {Ptr(V(), Pointer(inum)), r.value}))
        && logged <= old(logged) + bits + {r.value, Ptr(V(), Pointer(inum))}
        && |bits| <= (if old(Ptr(V(), Indirect(inum, j))) == 0 then 1 else 0)
      ensures old(Ptr(V(), Indirect(inum, j))) != 0 ==> r.Some? && logged == old(logged) && owner == old(owner)
    {
      hide Covers, Owned, OnlySlot, GetWord, PutWord;
      bits := {};
      var a := inodes[inum].addrs[NDIRECT];
      var addr := GetWord(blocks[a], j);
      if addr == 0 {
        ghost var v, i, logged0 := V(), I(), logged;
        r := Balloc();
        if r.None? {
          return;
        }
        addr := r.value;
        DataBlock(v, owner, addr, Pointer(inum));
        AllocIndirect(v, owner, inum, j, addr);
        CoverAlloc(base, i, logged0, g, addr);
        CoverStore(base, I(), logged, g, a, PutWord(blocks[a], j, addr));
        blocks := blocks[a := PutWord(blocks[a], j, addr)];
        logged := logged + {a};
        owner := owner[addr := Indirect(inum, j)];
        bits := {g.BitmapBlock(addr)};
        OwnedPtr(V(), owner, Indirect(inum, j), addr);
      }
      return Some(addr), bits;
    }

    method BmapIndirect(inum: nat, bn: nat) returns (r: Option<nat>, ghost bits: set<nat>)
      requires Sound() && inum < |inodes| && NDIRECT <= bn < MAXFILE
      modifies this`used, this`blocks, this`logged, this`inodes, this`owner
      ensures r.None? ==> forall b :: 0 <= b < |used| ==> used[b]
      ensures r.Some? ==>
        && Sound() && Bmapped(old(V()), V(), inum, bn) && r.value == Ptr(V(), SlotOf(inum, bn))
        && logged <= old(logged) + bits + {r.value, Ptr(V(), Pointer(inum))}
        && |bits| <= NewBlocks(old(V()), inum, bn)
      ensures old(Ptr(V(), SlotOf(inum, bn))) != 0 ==> r.Some? && logged == old(logged) && owner == old(owner)
    {
      hide Covers, Owned, Bmapped, OnlySlot, Shape, Ptr, NewBlocks;
      EntryNeedsPointer(V(), inum, bn);
      bits := {};
      ghost var u := V();
      var p, bits1 := LoadPointer(inum);
      if p.None? {
        return None, {};
      }
      ghost var v := V();
      ghost var bits2;
      r, bits2 := LoadEntry(inum, bn - NDIRECT);
      if r.Some? {
        IndirectBmapped(u, v, owner, V(), inum, bn, r.value);
        bits := bits1 + bits2;
      }
    }

    /** bmap: the block of the file, allocated on demand with everything else kept.
        At most one data block, one indirect block and their bitmap blocks are logged. */
    method Bmap(inum: nat, bn: nat) returns (r: Option<nat>, ghost bits: set<nat>)
      requires Sound() && inum < |inodes|
      modifies this`used, this`blocks, this`logged, this`inodes, this`owner
      ensures r.None? ==> bn >= MAXFILE || forall b :: 0 <= b < |used| ==> used[b]
      ensures r.Some? ==>
        && bn < MAXFILE && Sound() && Bmapped(old(V()), V(), inum, bn) && r.value == Ptr(V(), SlotOf(inum, bn))
        && logged <= old(logged) + bits + {r.value} + (if bn < NDIRECT then {} else {Ptr(V(), Pointer(inum))})
        && |bits| <= NewBlocks(old(V()), inum, bn)
      ensures bn < MAXFILE && old(Ptr(V(), SlotOf(inum, bn))) != 0 ==>
        r.Some? && logged == old(logged) && owner == old(owner)
    {
      hide Covers, Owned, Bmapped, OnlySlot, Shape;
      if bn < NDIRECT {
        r, bits := BmapDirect(inum, bn);
      } else if bn - NDIRECT < NINDIRECT {
        r, bits := BmapIndirect(inum, bn);
      } else {
        r, bits := None, {};
      }
    }

    /** iupdate: the on-disk inode catches up with the cached one. */
    method Iupdate(inum: nat)
      requires inum < |inodes| == |dinodes| && Covers(base, I(), logged, g)
      modifies this`dinodes, this`logged
      ensures dinodes == old(dinodes)[inum := inodes[inum]] && Covers(base, I(), logged, g)
      ensures logged == old(logged) + {g.InodeBlock(inum)}
    {
      dinodes := dinodes[inum := inodes[inum]];
      logged := logged + {g.InodeBlock(inum)};
    }

    /** One iteration of the writei loop: bmap, bread, memmove, log_write. */
    method WriteBlock(inum: nat, ghost len: nat, off: nat, bytes: seq<Byte>)
      returns (ok: bool, ghost bits: set<nat>, ghost data: nat)
      requires Sound() && inum < |inodes| && Extent(V(), inum, len)
      requires off <= len && off % BSIZE + |bytes| <= BSIZE && off + |bytes| <= MAXFILE * BSIZE && |bytes| > 0
      modifies this`used, this`blocks, this`logged, this`inodes, this`owner
      ensures !ok ==> forall b :: 0 <= b < |used| ==> used[b]
      ensures ok ==> Sound() && BlockWritten(old(V()), V(), inum, len, off, bytes, old(logged), logged, bits, data)
    {
      hide Covers, Owned, Bmapped, Extent, Wrote, FileKept, Shape, Ptr, NewBlocks, Splice;
      var bn := off / BSIZE;
      ghost var v, owner0 := V(), owner;
      ExtentAt(v, inum, len, bn);
      var r;
      r, bits := Bmap(inum, bn);
      data := 0;
      if r.None? {
        return false, bits, data;
      }
      var b := r.value;
      data := b;
      ghost var w := V();
      BmappedFacts(v, w, inum, bn);
      ChunkBytes(v, owner0, w, owner, inum, len, off, bytes);
      CoverStore(base, I(), logged, g, b, Splice(blocks[b], off % BSIZE, bytes));
      blocks := blocks[b := Splice(blocks[b], off % BSIZE, bytes)];
      logged := logged + {b};
      forall f: nat | f < |inodes| && f != inum ensures FileKept(v, V(), f) {
        ChunkKeeps(v, owner0, w, owner, inum, bn, blocks[b], f);
      }
      return true, bits, data;
    }

    /** The loop of writei. */
    method WriteLoop(inum: nat, src: seq<Byte>, off: nat) returns (ok: bool, ghost added: set<nat>)
      requires Sound() && inum < |inodes| && FileOk(V(), inum)
      requires off <= inodes[inum].size && off + |src| <= MAXFILE * BSIZE
      modifies this`used, this`blocks, this`logged, this`inodes, this`owner
      ensures !ok ==> forall b :: 0 <= b < |used| ==> used[b]
      ensures ok ==>
        && Sound() && Progress(old(V()), V(), inum, off, src)
        && logged <= old(logged) + added && |added| + 1 <= LogBound(old(inodes)[inum].size, off, |src|)
    {
      hide Covers, Owned, Extent, Shape, Progress, LogBound, Ptr, Chunk, BlockEdge, WriteState, BlockWritten;
      added := {};
      ghost var v := V();
      var size := inodes[inum].size;
      var tot := 0;
      ghost var data: set<nat>, bits: set<nat>, ind: set<nat> := {}, {}, {};
      ProgressStart(v, owner, inum, off, logged);
      while tot < |src|
        invariant 0 <= tot <= |src|
        invariant Sound() && WriteState(v, V(), inum, off, src[..tot], old(logged), logged, data, bits, ind)
        invariant 0 < tot < |src| ==> BlockEdge(off + tot)
      {
        var cur := off + tot;
        var m := Chunk(cur, |src| - tot);
        ChunkFacts(cur, |src| - tot);
        ghost var w := V();
        StateFacts(v, w, inum, off, src[..tot], old(logged), logged, data, bits, ind);
        ghost var logged1, bits1, data1 := logged, {}, 0;
        ok, bits1, data1 := WriteBlock(inum, Max(size, cur), cur, src[tot..tot + m]);
        if !ok {
          return;
        }
        WriteRound(v, w, V(), inum, off, src[..tot], src[tot..tot + m], old(logged), logged1, logged, data, bits, ind,
                   data1, bits1);
        data, bits, ind := data + {data1}, bits + bits1, ind + IndBlock(V(), inum, cur / BSIZE);
        assert src[..tot] + src[tot..tot + m] == src[..tot + m];
        tot := tot + m;
      }
      assert src[..tot] == src;
      added := data + bits + ind;
      WriteTotal(v, V(), inum, off, src, old(logged), logged, data, bits, ind);
      return true, added;
    }

    /** writei: a successful call splices src in at off and changes no other file; a
        rejected call changes nothing; the only panic is a full disk. */
    method Writei(inum: nat, src: seq<Byte>, off: nat) returns (r: IoResult, ghost added: set<nat>)
      requires Valid() && inum < |inodes| && off < UINT_LIMIT && |src| < UINT_LIMIT
      modifies this
      ensures base == old(base)
      ensures r.Rejected? <==> WriteRejected(old(inodes)[inum].size, off, |src|)
      ensures r.Rejected? <==> off > old(inodes)[inum].size || off + |src| > (12 + 128) * 512
      ensures r.Rejected? ==> V() == old(V()) && dinodes == old(dinodes) && logged == old(logged) && owner == old(owner)
      ensures r.Panic? ==> forall b :: 0 <= b < |used| ==> used[b]
      ensures r.Done? ==>
        && r.n == |src| && Valid() && |inodes| == |old(inodes)|
        && Spliced(old(V()), V(), inum, off, src)
        && (forall f: nat :: f < |inodes| && f != inum ==> FileKept(old(V()), V(), f))
        && logged <= old(logged) + added && |added| <= LogBound(old(inodes)[inum].size, off, |src|)
    {
      hide Covers, Owned, Bmapped, Extent, Wrote, FileKept, Shape, Tally, Progress, LogBound, Spliced;
      added := {};
      ghost var v := V();
      var size := inodes[inum].size;
      ValidFile(v, owner, inum);
      if off > size || (off + |src|) % UINT_LIMIT < off {
        return Rejected, added;
      }
      if (off + |src|) % UINT_LIMIT > MAXFILE * BSIZE {
        return Rejected, added;
      }
      var ok;
      ok, added := WriteLoop(inum, src, off);
      if !ok {
        return Panic, added;
      }
      added := added + {g.InodeBlock(inum)};
      ghost var w := V();
      ProgressFacts(v, w, inum, off, src);
      if |src| > 0 && off + |src| > size {
        inodes := inodes[inum := inodes[inum].(size := off + |src|)];
        Iupdate(inum);
      }
      WriteDone(v, w, owner, V(), inum, off, src);
      return Done(|src|), added;
    }

    /** The loop of readi. */
    method ReadLoop(inum: nat, off: nat, len: nat) returns (dst: seq<Byte>)
      requires Valid() && inum < |inodes| && off + len <= inodes[inum].size
      modifies this`used, this`blocks, this`logged, this`inodes, this`owner
      ensures V() == old(V()) && logged == old(logged) && owner == old(owner)
      ensures Readable(V(), inum, inodes[inum].size) && dst == Content(V(), inum)[off..off + len]
    {
      hide Covers, Owned, Bmapped, Extent, FileKept, Shape, Ptr, NewBlocks, Chunk, Content, Readable;
      ghost var v := V();
      ValidFile(v, owner, inum);
      ContentLength(v, inum);
      ghost var size := inodes[inum].size;
      dst := [];
      var tot := 0;
      while tot < len
        invariant 0 <= tot <= len
        invariant V() == v && logged == old(logged) && owner == old(owner)
        invariant dst == Content(v, inum)[off..off + tot]
      {
        var cur := off + tot;
        var m := Chunk(cur, len - tot);
        ChunkFacts(cur, len - tot);
        ExtentAt(v, inum, size, cur / BSIZE);
        var b;
        ghost var bits;
        b, bits := Bmap(inum, cur / BSIZE);
        BmappedFacts(v, V(), inum, cur / BSIZE);
        ReadChunk(v, inum, cur, m);
        dst := dst + blocks[b.value][cur % BSIZE..cur % BSIZE + m];
        tot := tot + m;
      }
    }

    /** readi: exactly the bytes from off, clipped at the end of the file, and since the
        file has no holes bmap never allocates. */
    method Readi(inum: nat, off: nat, n: nat) returns (r: Option<seq<Byte>>)
      requires Valid() && inum < |inodes| && off < UINT_LIMIT && n < UINT_LIMIT
      modifies this`used, this`blocks, this`logged, this`inodes, this`owner
      ensures V() == old(V()) && logged == old(logged) && owner == old(owner)
      ensures r.None? <==> off > inodes[inum].size || off + n >= UINT_LIMIT
      ensures r.Some? ==>
        && Readable(V(), inum, inodes[inum].size)
        && r.value == Content(V(), inum)[off..if off + n < inodes[inum].size then off + n else inodes[inum].size]
    {
      hide Covers, Owned, Bmapped, Extent, FileKept, Shape, Ptr, Content, Readable;
      ValidFile(V(), owner, inum);
      var size := inodes[inum].size;
      if off > size || (off + n) % UINT_LIMIT < off {
        return None;
      }
      var len := if (off + n) % UINT_LIMIT > size then size - off else n;
      var dst := ReadLoop(inum, off, len);
      return Some(dst);
    }

    /** First loop of itrunc. */
    method TruncDirect(inum: nat) returns (ok: bool)
      requires Sound() && inum < |inodes|
      modifies this`used, this`logged, this`inodes, this`owner
      ensures ok && Sound() && NoDirect(old(V()), old(owner), V(), owner, inum, NDIRECT)
    {
      hide Covers, Owned, Shape, Ptr, NoDirect;
      ghost var v, owner0 := V(), owner;
      NoDirectStart(v, owner0, inum);
      var i := 0;
      while i < NDIRECT
        invariant 0 <= i <= NDIRECT
        invariant Sound() && NoDirect(v, owner0, V(), owner, inum, i)
      {
        NoDirectFacts(v, owner0, V(), owner, inum, i);
        var b := inodes[inum].addrs[i];
        if b != 0 {
          ghost var w := V();
          FreeDirect(w, owner, inum, i);
          CoverFree(base, I(), logged, g, b);
          ok := Bfree(b);
          if !ok {
            return false;
          }
          inodes := inodes[inum := inodes[inum].(addrs := inodes[inum].addrs[i := 0])];
          NoDirectStep(v, owner0, w, owner, V(), inum, i);
          owner := owner - {b};
        } else {
          NoDirectSkip(v, owner0, V(), owner, inum, i);
        }
        i := i + 1;
      }
      return true;
    }

    /** The rest of itrunc: the entries, then the indirect block itself. */
    method TruncIndirect(inum: nat) returns (ok: bool)
      requires Sound() && inum < |inodes|
      modifies this`used, this`logged, this`inodes, this`owner
      ensures ok && Sound() && NoIndirect(old(V()), old(owner), V(), owner, inum)
    {
      hide Covers, Owned, Shape, NoIndirect, FreedEntries, WithoutIndirect;
      ghost var v := V();
      PointerInRange(v, inum);
      var a := inodes[inum].addrs[NDIRECT];
      if a == 0 {
        NoIndirectNone(v, owner, inum);
        return true;
      }
      var j := 0;
      FreedStart(v, owner, inum);
      while j < NINDIRECT
        invariant 0 <= j <= NINDIRECT
        invariant inodes == old(inodes) && owner == old(owner)
        invariant FreedEntries(v, owner, inum, j, used) && Covers(base, I(), logged, g)
      {
        FreeEntry(v, owner, inum, j, used);
        var b := GetWord(blocks[a], j);
        if b != 0 {
          CoverFree(base, I(), logged, g, b);
          ok := Bfree(b);
          if !ok {
            return false;
          }
        }
        j := j + 1;
      }
      FreePointer(v, owner, inum, used);
      CoverFree(base, I(), logged, g, a);
      ok := Bfree(a);
      if !ok {
        return false;
      }
      inodes := inodes[inum := inodes[inum].(addrs := inodes[inum].addrs[NDIRECT := 0])];
      owner := WithoutIndirect(owner, inum);
      NoIndirectDone(v, old(owner), V(), inum);
    }

    /** itrunc: never meets a free block, frees exactly the blocks of this inode, leaves
        the file empty and every other file as it was. */
    method Itrunc(inum: nat) returns (ok: bool)
      requires Valid() && inum < |inodes|
      modifies this
      ensures ok && Valid() && |inodes| == |old(inodes)| && base == old(base)
      ensures |used| == |old(used)| && forall b: nat :: b < |used| ==>
        (used[b] <==> old(used)[b] && !(b in old(owner) && old(owner)[b].inum == inum))
      ensures inodes[inum].size == 0 && inodes[inum].SameHead(old(inodes)[inum]) && blocks == old(blocks)
      ensures forall f: nat :: f < |inodes| && f != inum ==> FileKept(old(V()), V(), f)
    {
      hide Covers, Owned, Shape, Ptr, NoDirect, NoIndirect, FileKept, Extent;
      ghost var v, owner0 := V(), owner;
      ok := TruncDirect(inum);
      NoDirectFacts(v, owner0, V(), owner, inum, NDIRECT);
      ghost var w, owner1 := V(), owner;
      var ok2 := TruncIndirect(inum);
      NoIndirectFacts(w, owner1, V(), owner, inum);
      ghost var x := V();
      inodes := inodes[inum := inodes[inum].(size := 0)];
      Truncated(v, owner0, w, owner1, x, owner, V(), inum);
      Iupdate(inum);
    }

    /** filewrite on an inode: one transaction per chunk, each within the log budget and each
        logging all it changes, and together the chunks write a prefix of src, all of it
        unless the file would grow past its limit or starts beyond its end.  images[t] is the
        volume on disk once t chunks are committed. */
    method FileWrite(inum: nat, src: seq<Byte>, off0: nat)
        returns (r: IoResult, off: nat, ghost txns: seq<set<nat>>, ghost images: seq<Image>)
      requires Valid() && inum < |inodes| && off0 < UINT_LIMIT && |src| < UINT_LIMIT
      modifies this
      ensures Ledger(old(V()), images, txns, g, inum, off0, src) && images[0] == old(I())
      ensures !r.Panic? ==> images[|txns|] == I()
      ensures r.Panic? ==> forall b :: 0 <= b < |used| ==> used[b]
      ensures !r.Panic? ==>
        && Valid() && |inodes| == |old(inodes)| && off0 <= off <= off0 + |src|
        && (off == off0 ==> V() == old(V()))
        && (off > off0 ==> Spliced(old(V()), V(), inum, off0, src[..off - off0]))
        && (forall f: nat :: f < |inodes| && f != inum ==> FileKept(old(V()), V(), f))
      ensures r.Done? ==> r.n == |src| && off == off0 + |src|
      ensures !r.Panic? && |src| > 0 ==> (r.Rejected? <==> WriteRejected(old(inodes)[inum].size, off0, |src|))
      ensures !r.Panic? ==> off == off0 + Written(|txns|, |src|)
      ensures r.Rejected? ==>
        var left := off0 + |src| - off;
        off0 > old(inodes)[inum].size || off + (if left > FILEWRITE_MAX then FILEWRITE_MAX else left) > (12 + 128) * 512
    {
      hide Covers, Owned, FileOk, FileKept, Shape, Spliced, LogBound, Ledger, Written, SoFar;
      ghost var v := V();
      off := off0;
      txns, images := [], [I()];
      LedgerStart(v, I(), g, inum, off0, src);
      SoFarStart(v, owner, inum, off0, src);
      var i := 0;
      while i < |src|
        invariant 0 <= i <= |src| && off == off0 + i && Valid() && |inodes| == |v.inodes|
        invariant SoFar(v, V(), inum, off0, src, i)
        invariant Ledger(v, images, txns, g, inum, off0, src) && i == Written(|txns|, |src|)
        invariant |images| == |txns| + 1 && images[0] == old(I()) && images[|txns|] == I()
      {
        var n1 := if |src| - i > FILEWRITE_MAX then FILEWRITE_MAX else |src| - i;
        CoversAgain(base, I(), logged, g);
        logged, base := {}, I();
        ghost var w := V();
        ghost var size := inodes[inum].size;
        SoFarFacts(v, w, inum, off0, src, i);
        var res;
        ghost var added;
        res, added := Writei(inum, src[i..i + n1], off);
        if res.Panic? {
          return Panic, off, txns, images;
        }
        if res.Rejected? {
          return Rejected, off, txns, images;
        }
        ChunkFits(size, off, n1);
        SubsetSize(logged, added);
        WrittenNext(|txns|, |src|);
        SoFarNext(v, w, V(), inum, off0, src, i, n1);
        SoFarFacts(v, V(), inum, off0, src, i + n1);
        LedgerMore(v, images, txns, g, inum, off0, src, V(), owner, I(), logged);
        txns, images := txns + [logged], images + [I()];
        off := off + n1;
        i := i + n1;
      }
      SoFarFacts(v, V(), inum, off0, src, i);
      return Done(|src|), off, txns, images;
    }
  }

  /** The first i bytes of src are written at off and nothing else has changed. */
  ghost predicate SoFar(v: Vol, w: Vol, inum: nat, off: nat, src: seq<Byte>, i: nat) {
    && Shape(v) && Shape(w) && inum < |v.inodes| == |w.inodes| && i <= |src|
    && v.inodes[inum].size <= MAXFILE * BSIZE
    && (i == 0 ==> w == v)
    && (i > 0 ==> Spliced(v, w, inum, off, src[..i]) && off + i <= MAXFILE * BSIZE)
    && (forall f: nat :: f < |w.inodes| && f != inum ==> FileKept(v, w, f))
  }

  lemma SoFarStart(v: Vol, owner: map<nat, Slot>, inum: nat, off: nat, src: seq<Byte>)
    requires Shape(v) && Owned(v, owner) && inum < |v.inodes| && FileOk(v, inum)
    ensures SoFar(v, v, inum, off, src, 0)
  {
    hide Owned, FileOk, FileKept, Shape;
    ValidFile(v, owner, inum);
    AllKept(v);
  }

  lemma SoFarFacts(v: Vol, w: Vol, inum: nat, off: nat, src: seq<Byte>, i: nat)
    requires SoFar(v, w, inum, off, src, i)
    ensures Shape(v) && Shape(w) && inum < |v.inodes| == |w.inodes| && i <= |src|
    ensures (i == 0 ==> w == v) && v.inodes[inum].size <= MAXFILE * BSIZE
    ensures i > 0 ==> Spliced(v, w, inum, off, src[..i]) && off + i <= MAXFILE * BSIZE && off <= v.inodes[inum].size
    ensures i > 0 ==> w.inodes[inum].size == Max(v.inodes[inum].size, off + i)
    ensures forall f: nat :: f < |w.inodes| && f != inum ==> FileKept(v, w, f)
  {
    hide Shape, Spliced, FileKept;
    if i > 0 { SplicedSize(v, w, inum, off, src[..i]); }
  }

  lemma SoFarNext(v: Vol, w: Vol, x: Vol, inum: nat, off: nat, src: seq<Byte>, i: nat, n: nat)
    requires SoFar(v, w, inum, off, src, i) && 0 < n && i + n <= |src|
    requires Shape(x) && |x.inodes| == |w.inodes| && Spliced(w, x, inum, off + i, src[i..i + n])
    requires off + i + n <= MAXFILE * BSIZE && forall f: nat :: f < |x.inodes| && f != inum ==> FileKept(w, x, f)
    ensures SoFar(v, x, inum, off, src, i + n)
  {
    hide Shape, Spliced, FileKept;
    assert src[..i] + src[i..i + n] == src[..i + n];
    if i > 0 {
      SplicedTrans(v, w, x, inum, off, src[..i], src[i..i + n]);
    }
    KeptAllTrans(v, w, x, inum);
  }

  /** How many of n bytes the first t chunks write. */
  function Written(t: nat, n: nat): nat {
    if t * FILEWRITE_MAX < n then t * FILEWRITE_MAX else n
  }

  lemma WrittenNext(t: nat, n: nat)
    ensures Written(0, n) == 0
    ensures Written(t + 1, n) == if n - Written(t, n) > FILEWRITE_MAX then Written(t, n) + FILEWRITE_MAX else n
  {
  }

  /** The image holds a sound volume, every block in use owned once and no file with a hole,
      in which the first t chunks of src are written and nothing else has changed. */
  ghost predicate PrefixWritten(v: Vol, i: Image, inum: nat, off: nat, src: seq<Byte>, t: nat) {
    var w := Vol(v.nmeta, i.dinodes, i.blocks, i.used);
    && Shape(v) && Shape(w) && Spliced(v, w, inum, off, src[..Written(t, |src|)])
    && (exists owner :: Owned(w, owner)) && (forall f: nat :: f < |w.inodes| ==> FileOk(w, f))
    && (forall f: nat :: f < |w.inodes| && f != inum ==> FileKept(v, w, f))
  }

  /** The committed chunks: each transaction fits in the log and logs whatever it changes, and
      after t of them the volume has the first t chunks of src. */
  ghost predicate Ledger(v: Vol, images: seq<Image>, txns: seq<set<nat>>, g: Geometry, inum: nat, off: nat,
                         src: seq<Byte>)
  {
    && |images| == |txns| + 1
    && (forall t: nat :: t < |txns| ==> |txns[t]| <= MAXOPBLOCKS && Covers(images[t], images[t + 1], txns[t], g))
    && (forall t: nat :: 0 < t < |images| ==> PrefixWritten(v, images[t], inum, off, src, t))
  }

  lemma LedgerStart(v: Vol, i: Image, g: Geometry, inum: nat, off: nat, src: seq<Byte>)
    ensures Ledger(v, [i], [], g, inum, off, src) && Written(0, |src|) == 0
  {
  }

  lemma LedgerMore(v: Vol, images: seq<Image>, txns: seq<set<nat>>, g: Geometry, inum: nat, off: nat, src: seq<Byte>,
                   w: Vol, owner: map<nat, Slot>, i: Image, logged: set<nat>)
    requires Ledger(v, images, txns, g, inum, off, src) && |images| == |txns| + 1
    requires |logged| <= MAXOPBLOCKS && Covers(images[|txns|], i, logged, g)
    requires Shape(v) && Shape(w) && w == Vol(v.nmeta, i.dinodes, i.blocks, i.used)
    requires Spliced(v, w, inum, off, src[..Written(|txns| + 1, |src|)])
    requires Owned(w, owner) && (forall f: nat :: f < |w.inodes| ==> FileOk(w, f))
    requires forall f: nat :: f < |w.inodes| && f != inum ==> FileKept(v, w, f)
    ensures Ledger(v, images + [i], txns + [logged], g, inum, off, src)
  {
    hide Covers, Spliced, Shape, Owned, FileOk, FileKept;
    var images', txns' := images + [i], txns + [logged];
    forall t: nat | t < |txns'| ensures |txns'[t]| <= MAXOPBLOCKS && Covers(images'[t], images'[t + 1], txns'[t], g) {
      assert t < |txns| ==> images'[t + 1] == images[t + 1];
    }
  }

  function EmptyInode(): Inode {
    Inode(0, 0, 0, seq(NDIRECT + 1, _ => 0))
  }

  /** A volume in which no inode has a block. */
  lemma EmptyVolume(v: Vol)
    requires 1 <= v.nmeta <= |v.used| == |v.blocks| < UINT_LIMIT
    requires forall k: nat :: k < |v.inodes| ==> v.inodes[k] == EmptyInode()
    requires forall b: nat :: b < |v.used| ==> (v.used[b] <==> b < v.nmeta)
    ensures Shape(v) && Owned(v, map[]) && forall k: nat :: k < |v.inodes| ==> FileOk(v, k)
  {
    forall s | ValidSlot(v, s) ensures Ptr(v, s) == 0 {
    }
    forall k: nat | k < |v.inodes| ensures FileOk(v, k) {
      EmptyFile(v, k);
    }
  }

  lemma CoversSelf(a: Image, g: Geometry)
    requires |a.used| == |a.blocks| && g.Fits(|a.blocks|, |a.dinodes|)
    ensures Covers(a, a, {}, g)
  {
  }

  lemma CoversAgain(base: Image, i: Image, logged: set<nat>, g: Geometry)
    requires Covers(base, i, logged, g)
    ensures Covers(i, i, {}, g)
  {
  }

  lemma CoverAlloc(base: Image, i: Image, logged: set<nat>, g: Geometry, b: nat)
    requires Covers(base, i, logged, g) && g.nmeta <= b < |i.blocks|
    ensures Covers(base, i.(used := i.used[b := true], blocks := i.blocks[b := ZeroBlock()]),
                   logged + {g.BitmapBlock(b), b}, g)
  {
  }

  lemma CoverStore(base: Image, i: Image, logged: set<nat>, g: Geometry, b: nat, data: Block)
    requires Covers(base, i, logged, g) && g.nmeta <= b < |i.blocks|
    ensures Covers(base, i.(blocks := i.blocks[b := data]), logged + {b}, g)
  {
  }

  lemma CoverFree(base: Image, i: Image, logged: set<nat>, g: Geometry, b: nat)
    requires Covers(base, i, logged, g) && b < |i.used|
    ensures Covers(base, i.(used := i.used[b := false]), logged + {g.BitmapBlock(b)}, g)
  {
  }

  lemma ContentLength(v: Vol, inum: nat)
    requires Shape(v) && inum < |v.inodes| && Readable(v, inum, v.inodes[inum].size)
    ensures |Content(v, inum)| == v.inodes[inum].size
  {
  }

  /** The tests of writei in 32-bit arithmetic. */
  predicate WriteRejected(size: nat, off: nat, n: nat) {
    off > size || off + n >= UINT_LIMIT || off + n > MAXFILE * BSIZE
  }

  /** c with src written over it at off, longer than c if src reaches past its end. */
  function Overwrite(c: seq<Byte>, off: nat, src: seq<Byte>): seq<Byte>
    requires off <= |c|
  {
    c[..off] + src + (if off + |src| < |c| then c[off + |src|..] else [])
  }

  lemma OverwriteTwice(c: seq<Byte>, off: nat, a: seq<Byte>, b: seq<Byte>)
    requires off <= |c|
    ensures off + |a| <= |Overwrite(c, off, a)|
    ensures Overwrite(Overwrite(c, off, a), off + |a|, b) == Overwrite(c, off, a + b)
  {
    var d := Overwrite(c, off, a);
    assert d[..off + |a|] == c[..off] + a;
    if off + |a| + |b| < |d| {
      assert d[off + |a| + |b|..] == c[off + |a| + |b|..];
    }
    assert c[..off] + (a + b) == c[..off] + a + b;
  }

  /** The file now reads as before with src at off, and is exactly as long as needed. */
  ghost predicate Spliced(v: Vol, w: Vol, inum: nat, off: nat, src: seq<Byte>)
    requires Shape(v) && Shape(w)
  {
    && inum < |v.inodes| == |w.inodes|
    && var size := v.inodes[inum].size;
    && off <= size && w.inodes[inum].size == Max(size, off + |src|) && w.inodes[inum].SameHead(v.inodes[inum])
    && Readable(v, inum, size) && Readable(w, inum, w.inodes[inum].size)
    && Content(w, inum) == Overwrite(Content(v, inum), off, src)
  }

  /** The m of readi and writei: to the end of the request or of the block. */
  function Chunk(cur: nat, left: nat): nat {
    if left < BSIZE - cur % BSIZE then left else BSIZE - cur % BSIZE
  }

  predicate BlockEdge(x: nat) {
    x % BSIZE == 0
  }

  lemma ChunkFacts(cur: nat, left: nat)
    requires left > 0
    ensures 0 < Chunk(cur, left) <= left && cur % BSIZE + Chunk(cur, left) <= BSIZE
    ensures Chunk(cur, left) < left ==> BlockEdge(cur + Chunk(cur, left))
  {
  }

  function BlocksFor(len: nat): nat { (len + BSIZE - 1) / BSIZE }

  /** Data blocks touched, bitmap blocks of new blocks, indirect block, inode block. */
  function LogBound(size: nat, off: nat, n: nat): nat {
    (if n == 0 then 0 else BlocksFor(off + n) - off / BSIZE) +
    (if off + n > size then BlocksFor(off + n) - BlocksFor(size) else 0) + 3
  }

  lemma ExtentAt(v: Vol, inum: nat, len: nat, bn: nat)
    requires Shape(v) && inum < |v.inodes| && Extent(v, inum, len) && bn < MAXFILE
    ensures Ptr(v, SlotOf(inum, bn)) != 0 <==> bn * BSIZE < len
    ensures Ptr(v, Pointer(inum)) != 0 <==> NDIRECT * BSIZE < len
  {
  }

  lemma BmappedFacts(v: Vol, w: Vol, inum: nat, bn: nat)
    requires Shape(v) && Shape(w) && inum < |v.inodes| && bn < MAXFILE && Bmapped(v, w, inum, bn)
    ensures |w.inodes| == |v.inodes| && |w.blocks| == |v.blocks| == |w.used|
    ensures w.inodes[inum].size == v.inodes[inum].size && w.inodes[inum].SameHead(v.inodes[inum])
    ensures Ptr(v, SlotOf(inum, bn)) != 0 ==> w == v
    ensures Ptr(v, Pointer(inum)) != 0 ==> Ptr(w, Pointer(inum)) == Ptr(v, Pointer(inum))
  {
  }

  lemma OwnedPtr(v: Vol, owner: map<nat, Slot>, s: Slot, b: nat)
    requires Shape(v) && Owned(v, owner) && b in owner && owner[b] == s
    ensures b != 0
  {
  }

  lemma EntryNeedsPointer(v: Vol, inum: nat, bn: nat)
    requires Shape(v) && inum < |v.inodes| && NDIRECT <= bn < MAXFILE
    ensures Ptr(v, SlotOf(inum, bn)) != 0 ==> Ptr(v, Pointer(inum)) != 0
  {
  }

  /** How many blocks bmap has to allocate. */
  ghost function NewBlocks(v: Vol, inum: nat, bn: nat): nat
    requires Shape(v) && inum < |v.inodes| && bn < MAXFILE
  {
    (if Ptr(v, SlotOf(inum, bn)) == 0 then 1 else 0) + (if bn >= NDIRECT && Ptr(v, Pointer(inum)) == 0 then 1 else 0)
  }

  /** The two allocation steps of bmap past NDIRECT: u to v fills the pointer, v to w the entry. */
  ghost predicate TwoSteps(u: Vol, v: Vol, w: Vol, inum: nat, bn: nat, b: nat) {
    && Shape(u) && Shape(v) && Shape(w) && NDIRECT <= bn < MAXFILE
    && inum < |u.inodes| == |v.inodes| == |w.inodes|
    && var a := Ptr(v, Pointer(inum));
    && a != 0 && (if Ptr(u, Pointer(inum)) != 0 then v == u else OnlySlot(u, v, Pointer(inum), {a}))
    && (if Ptr(v, SlotOf(inum, bn)) != 0 then w == v else OnlySlot(v, w, SlotOf(inum, bn), {a, b}))
    && Ptr(w, Pointer(inum)) == a && Ptr(w, SlotOf(inum, bn)) == b != 0
  }

  lemma TwoStepsSlot(u: Vol, v: Vol, w: Vol, inum: nat, bn: nat, b: nat, t: Slot)
    requires TwoSteps(u, v, w, inum, bn, b) && ValidSlot(u, t) && t != Pointer(inum)
    ensures Ptr(v, t) == Ptr(u, t)
    ensures t != SlotOf(inum, bn) ==> Ptr(w, t) == Ptr(u, t)
  {
  }

  lemma TwoStepsData(u: Vol, v: Vol, owner: map<nat, Slot>, w: Vol, inum: nat, bn: nat, b: nat, t: Slot)
    requires TwoSteps(u, v, w, inum, bn, b) && Owned(w, owner) && ValidSlot(u, t) && !t.Pointer?
    requires 0 != Ptr(u, t) < |u.blocks|
    ensures |w.blocks| == |u.blocks| && w.blocks[Ptr(u, t)] == u.blocks[Ptr(u, t)]
  {
    hide Owned, Ptr, Shape, OnlySlot;
    var s, a := SlotOf(inum, bn), Ptr(v, Pointer(inum));
    TwoStepsSlot(u, v, w, inum, bn, b, t);
    NotTouched(w, owner, t, Pointer(inum), inum);
    if Ptr(u, Pointer(inum)) == 0 {
      OtherBlockKept(u, v, Pointer(inum), {a}, Ptr(u, t));
    }
    if Ptr(v, s) == 0 {
      NotTouched(w, owner, t, s, inum);
      OtherBlockKept(v, w, s, {a, b}, Ptr(u, t));
    }
  }

  lemma OtherBlockKept(v: Vol, w: Vol, s: Slot, touched: set<nat>, b: nat)
    requires Shape(v) && Shape(w) && OnlySlot(v, w, s, touched) && b < |v.blocks| && b !in touched
    ensures |w.blocks| == |v.blocks| && w.blocks[b] == v.blocks[b]
  {
  }

  lemma IndirectBmapped(u: Vol, v: Vol, owner: map<nat, Slot>, w: Vol, inum: nat, bn: nat, b: nat)
    requires TwoSteps(u, v, w, inum, bn, b) && Owned(w, owner)
    ensures Bmapped(u, w, inum, bn)
    ensures NewBlocks(u, inum, bn) ==
      (if Ptr(u, Pointer(inum)) == 0 then 1 else 0) + (if Ptr(v, SlotOf(inum, bn)) == 0 then 1 else 0)
  {
    TwoStepsSlot(u, v, w, inum, bn, b, SlotOf(inum, bn));
    forall t | ValidSlot(u, t) && t != SlotOf(inum, bn) && t != Pointer(inum) ensures Ptr(w, t) == Ptr(u, t) {
      TwoStepsSlot(u, v, w, inum, bn, b, t);
    }
    forall t | ValidSlot(u, t) && !t.Pointer? && 0 != Ptr(u, t) < |u.blocks|
      ensures |w.blocks| == |u.blocks| && w.blocks[Ptr(u, t)] == u.blocks[Ptr(u, t)]
    {
      TwoStepsData(u, v, owner, w, inum, bn, b, t);
    }
  }

  /** Different slots hold different blocks. */
  lemma NotTouched(w: Vol, owner: map<nat, Slot>, t: Slot, s: Slot, inum: nat)
    requires Shape(w) && Owned(w, owner) && ValidSlot(w, t) && ValidSlot(w, s) && inum < |w.inodes|
    requires t != s && t != Pointer(inum) && Ptr(w, t) != 0
    ensures Ptr(w, t) != Ptr(w, s) && Ptr(w, t) != Ptr(w, Pointer(inum))
  {
    assert ValidSlot(w, Pointer(inum));
  }

  lemma DirectBmapped(v: Vol, owner: map<nat, Slot>, w: Vol, inum: nat, bn: nat, b: nat)
    requires Shape(v) && Shape(w) && Owned(w, owner) && inum < |v.inodes| && bn < NDIRECT
    requires OnlySlot(v, w, Direct(inum, bn), {b})
    requires Ptr(v, Direct(inum, bn)) == 0 && Ptr(w, Direct(inum, bn)) == b != 0
    ensures Bmapped(v, w, inum, bn)
  {
    forall t | ValidSlot(v, t) && !t.Pointer? && 0 != Ptr(v, t) < |v.blocks|
      ensures w.blocks[Ptr(v, t)] == v.blocks[Ptr(v, t)]
    {
      assert Ptr(w, t) == Ptr(v, t);
      assert ValidSlot(w, t) && ValidSlot(w, Direct(inum, bn));
    }
  }

  // The writei loop, on values

  ghost predicate Progress(v: Vol, w: Vol, inum: nat, off: nat, done: seq<Byte>)
  {
    && Shape(v) && Shape(w) && inum < |v.inodes| == |w.inodes|
    && var size := v.inodes[inum].size;
    && Extent(w, inum, Max(size, off + |done|)) && Wrote(v, w, inum, size, off, done)
    && (forall f: nat :: f < |v.inodes| && f != inum ==> FileKept(v, w, f))
    && w.inodes[inum].size == size && w.inodes[inum].SameHead(v.inodes[inum])
    && (off + |done| <= size ==> w.inodes == v.inodes)
  }

  lemma ValidFile(v: Vol, owner: map<nat, Slot>, inum: nat)
    requires Shape(v) && Owned(v, owner) && inum < |v.inodes| && FileOk(v, inum)
    ensures v.inodes[inum].size <= MAXFILE * BSIZE
    ensures Readable(v, inum, v.inodes[inum].size)
    ensures Extent(v, inum, v.inodes[inum].size)
  {
    ExtentReadable(v, owner, inum, v.inodes[inum].size);
  }

  lemma ProgressStart(v: Vol, owner: map<nat, Slot>, inum: nat, off: nat, logged: set<nat>)
    requires Shape(v) && Owned(v, owner) && inum < |v.inodes| && FileOk(v, inum) && off <= v.inodes[inum].size
    ensures WriteState(v, v, inum, off, [], logged, logged, {}, {}, {})
  {
    ValidFile(v, owner, inum);
    WroteNothing(v, inum, v.inodes[inum].size, off);
  }

  lemma ProgressFacts(v: Vol, w: Vol, inum: nat, off: nat, done: seq<Byte>)
    requires Progress(v, w, inum, off, done)
    ensures Shape(v) && Shape(w) && inum < |v.inodes| == |w.inodes|
    ensures Extent(w, inum, Max(v.inodes[inum].size, off + |done|)) && off <= v.inodes[inum].size
    ensures w.inodes[inum].size == v.inodes[inum].size
    ensures off + |done| <= v.inodes[inum].size ==> w.inodes == v.inodes
    ensures w.inodes == v.inodes[inum := w.inodes[inum]]
  {
    forall f: nat | f < |v.inodes| && f != inum ensures w.inodes[f] == v.inodes[f] { assert FileKept(v, w, f); }
  }

  lemma ProgressStep(v: Vol, w: Vol, x: Vol, inum: nat, off: nat, done: seq<Byte>, bytes: seq<Byte>)
    requires Progress(v, w, inum, off, done) && Shape(x) && |x.inodes| == |w.inodes|
    requires var cur := off + |done|;
             var len := Max(v.inodes[inum].size, cur);
      && Extent(x, inum, Max(len, cur + |bytes|)) && Wrote(w, x, inum, len, cur, bytes)
      && (forall f: nat :: f < |x.inodes| && f != inum ==> FileKept(w, x, f))
      && x.inodes[inum].size == w.inodes[inum].size && x.inodes[inum].SameHead(w.inodes[inum])
      && (cur + |bytes| <= len ==> x.inodes == w.inodes)
    ensures Progress(v, x, inum, off, done + bytes)
  {
    WroteMore(v, w, x, inum, v.inodes[inum].size, off, done, bytes);
    forall f: nat | f < |v.inodes| && f != inum ensures FileKept(v, x, f) {
      KeptTrans(v, w, x, f);
    }
  }

  // What one writei logs

  ghost predicate DataOk(off: nat, tot: nat, count: nat) {
    count <= if tot == 0 then 0 else BlocksFor(off + tot) - off / BSIZE
  }

  ghost predicate BitsOk(v: Vol, w: Vol, inum: nat, len: nat, count: nat)
    requires Shape(v) && Shape(w) && inum < |v.inodes| == |w.inodes|
  {
    count <= BlocksFor(len) - BlocksFor(v.inodes[inum].size)
             + (if Ptr(v, Pointer(inum)) == 0 && Ptr(w, Pointer(inum)) != 0 then 1 else 0)
  }

  ghost predicate IndOk(v: Vol, w: Vol, inum: nat, ind: set<nat>)
    requires Shape(v) && Shape(w) && inum < |v.inodes| == |w.inodes|
  {
    && (ind == {} || (Ptr(w, Pointer(inum)) != 0 && ind == {Ptr(w, Pointer(inum))}))
    && (Ptr(v, Pointer(inum)) != 0 ==> Ptr(w, Pointer(inum)) == Ptr(v, Pointer(inum)))
  }

  /** After tot bytes: data blocks, bitmap blocks and the indirect block logged so far. */
  ghost predicate Tally(v: Vol, w: Vol, inum: nat, off: nat, tot: nat, data: set<nat>, bits: set<nat>, ind: set<nat>)
  {
    && Shape(v) && Shape(w) && inum < |v.inodes| == |w.inodes|
    && DataOk(off, tot, |data|)
    && BitsOk(v, w, inum, Max(v.inodes[inum].size, off + tot), |bits|)
    && IndOk(v, w, inum, ind)
  }

  lemma TallyPointer(v: Vol, w: Vol, inum: nat, off: nat, tot: nat, data: set<nat>, bits: set<nat>, ind: set<nat>)
    requires Tally(v, w, inum, off, tot, data, bits, ind)
    ensures Shape(v) && Shape(w) && inum < |v.inodes| == |w.inodes|
    ensures Ptr(v, Pointer(inum)) != 0 ==> Ptr(w, Pointer(inum)) == Ptr(v, Pointer(inum))
  {
  }

  lemma TallyTotal(v: Vol, w: Vol, inum: nat, off: nat, n: nat, data: set<nat>, bits: set<nat>, ind: set<nat>)
    requires Tally(v, w, inum, off, n, data, bits, ind) && off <= v.inodes[inum].size
    ensures |data + bits + ind| + 1 <= LogBound(v.inodes[inum].size, off, n)
  {
    UnionSize(data, bits);
    UnionSize(data + bits, ind);
  }

  lemma BlocksForChunk(off: nat, m: nat)
    requires 0 < m && off % BSIZE + m <= BSIZE
    ensures BlocksFor(off + m) == off / BSIZE + 1
    ensures off % BSIZE == 0 ==> BlocksFor(off) == off / BSIZE
    ensures BlocksFor(off) <= off / BSIZE + 1
  {
  }

  lemma BlocksForMonotone(a: nat, b: nat)
    requires a <= b
    ensures BlocksFor(a) <= BlocksFor(b)
  {
  }

  /** bmap allocates only where the file grows into a new block. */
  lemma NewBlocksBound(w: Vol, x: Vol, inum: nat, len: nat, cur: nat, m: nat)
    requires Shape(w) && Shape(x) && inum < |w.inodes| == |x.inodes| && Extent(w, inum, len)
    requires Extent(x, inum, Max(len, cur + m))
    requires cur <= len && 0 < m && cur % BSIZE + m <= BSIZE && cur + m <= MAXFILE * BSIZE
    ensures NewBlocks(w, inum, cur / BSIZE) <=
      BlocksFor(Max(len, cur + m)) - BlocksFor(len)
      + (if Ptr(w, Pointer(inum)) == 0 && Ptr(x, Pointer(inum)) != 0 then 1 else 0)
  {
    var bn := cur / BSIZE;
    ExtentAt(w, inum, len, bn);
    ExtentAt(x, inum, Max(len, cur + m), bn);
    BlocksForChunk(cur, m);
    BlocksForMonotone(len, Max(len, cur + m));
    if bn * BSIZE < len {
    } else {
      assert len == cur && cur % BSIZE == 0;
    }
  }

  lemma TallyStep(v: Vol, w: Vol, x: Vol, inum: nat, off: nat, tot: nat, m: nat,
                  data: set<nat>, bits: set<nat>, ind: set<nat>, data1: nat, bits1: set<nat>, ind1: set<nat>)
    requires Tally(v, w, inum, off, tot, data, bits, ind) && Shape(x) && |x.inodes| == |w.inodes|
    requires Ptr(v, Pointer(inum)) != 0 ==> Ptr(w, Pointer(inum)) == Ptr(v, Pointer(inum))
    requires var cur := off + tot;
             var len := Max(v.inodes[inum].size, cur);
      && cur <= len && 0 < m && cur % BSIZE + m <= BSIZE && cur + m <= MAXFILE * BSIZE
      && (tot > 0 ==> cur % BSIZE == 0)
      && Extent(w, inum, len) && Extent(x, inum, Max(len, cur + m))
      && (Ptr(w, Pointer(inum)) != 0 ==> Ptr(x, Pointer(inum)) == Ptr(w, Pointer(inum)))
      && |bits1| <= NewBlocks(w, inum, cur / BSIZE)
      && ind1 == (if cur / BSIZE < NDIRECT then {} else {Ptr(x, Pointer(inum))})
    ensures Tally(v, x, inum, off, tot + m, data + {data1}, bits + bits1, ind + ind1)
  {
    hide Extent, Shape, NewBlocks, BlocksFor, Ptr, DataOk, BitsOk, IndOk;
    var cur := off + tot;
    var len := Max(v.inodes[inum].size, cur);
    NewBlocksBound(w, x, inum, len, cur, m);
    BitsStep(v, w, x, inum, len, Max(len, cur + m), |bits|, |bits1|);
    assert Max(len, cur + m) == Max(v.inodes[inum].size, off + (tot + m));
    ExtentAt(x, inum, Max(len, cur + m), cur / BSIZE);
    DataCount(off, tot, m);
    IndStep(v, w, x, inum, ind, ind1);
    DataStep(off, tot, m, |data|, |data + {data1}|);
    UnionSize(bits, bits1);
    BitsFewer(v, x, inum, Max(len, cur + m), |bits| + |bits1|, |bits + bits1|);
  }

  /** The indirect block, if the file block bn is reached through it. */
  ghost function IndBlock(v: Vol, inum: nat, bn: nat): set<nat>
    requires Shape(v) && inum < |v.inodes|
  {
    if bn < NDIRECT then {} else {Ptr(v, Pointer(inum))}
  }

  /** One round of the loop: the bytes are written, nothing else changes, and the log gains
      at most the block, its new bitmap blocks and the indirect block. */
  ghost predicate BlockWritten(w: Vol, x: Vol, inum: nat, len: nat, off: nat, bytes: seq<Byte>,
                               l1: set<nat>, l2: set<nat>, bits: set<nat>, data: nat) {
    && Shape(w) && Shape(x) && inum < |w.inodes| == |x.inodes| && off / BSIZE < MAXFILE
    && Extent(x, inum, Max(len, off + |bytes|)) && Wrote(w, x, inum, len, off, bytes)
    && (forall f: nat :: f < |x.inodes| && f != inum ==> FileKept(w, x, f))
    && (off + |bytes| <= len ==> x.inodes == w.inodes)
    && x.inodes[inum].size == w.inodes[inum].size && x.inodes[inum].SameHead(w.inodes[inum])
    && (Ptr(w, Pointer(inum)) != 0 ==> Ptr(x, Pointer(inum)) == Ptr(w, Pointer(inum)))
    && l2 <= l1 + bits + {data} + IndBlock(x, inum, off / BSIZE) && |bits| <= NewBlocks(w, inum, off / BSIZE)
  }

  /** What the loop has written and logged so far. */
  ghost predicate WriteState(v: Vol, w: Vol, inum: nat, off: nat, done: seq<Byte>, l0: set<nat>, l1: set<nat>,
                             data: set<nat>, bits: set<nat>, ind: set<nat>) {
    Progress(v, w, inum, off, done) && Tally(v, w, inum, off, |done|, data, bits, ind) && l1 <= l0 + data + bits + ind
  }

  lemma StateFacts(v: Vol, w: Vol, inum: nat, off: nat, done: seq<Byte>, l0: set<nat>, l1: set<nat>,
                   data: set<nat>, bits: set<nat>, ind: set<nat>)
    requires WriteState(v, w, inum, off, done, l0, l1, data, bits, ind)
    ensures Shape(v) && Shape(w) && inum < |v.inodes| == |w.inodes| && off <= v.inodes[inum].size
    ensures Extent(w, inum, Max(v.inodes[inum].size, off + |done|)) && Progress(v, w, inum, off, done)
  {
    ProgressFacts(v, w, inum, off, done);
  }

  lemma WriteTotal(v: Vol, w: Vol, inum: nat, off: nat, src: seq<Byte>, l0: set<nat>, l1: set<nat>,
                   data: set<nat>, bits: set<nat>, ind: set<nat>)
    requires WriteState(v, w, inum, off, src, l0, l1, data, bits, ind)
    ensures Shape(v) && inum < |v.inodes| && Progress(v, w, inum, off, src) && l1 <= l0 + (data + bits + ind)
    ensures |data + bits + ind| + 1 <= LogBound(v.inodes[inum].size, off, |src|)
  {
    hide Progress, Tally, LogBound;
    ProgressFacts(v, w, inum, off, src);
    TallyTotal(v, w, inum, off, |src|, data, bits, ind);
  }

  lemma WriteRound(v: Vol, w: Vol, x: Vol, inum: nat, off: nat, done: seq<Byte>, bytes: seq<Byte>,
                   l0: set<nat>, l1: set<nat>, l2: set<nat>,
                   data: set<nat>, bits: set<nat>, ind: set<nat>, data1: nat, bits1: set<nat>)
    requires WriteState(v, w, inum, off, done, l0, l1, data, bits, ind) && inum < |v.inodes|
    requires var cur := off + |done|;
      && 0 < |bytes| && cur % BSIZE + |bytes| <= BSIZE && cur + |bytes| <= MAXFILE * BSIZE
      && (done != [] ==> BlockEdge(cur))
      && BlockWritten(w, x, inum, Max(v.inodes[inum].size, cur), cur, bytes, l1, l2, bits1, data1)
    ensures Shape(x) && inum < |x.inodes|
    ensures WriteState(v, x, inum, off, done + bytes, l0, l2, data + {data1}, bits + bits1,
                       ind + IndBlock(x, inum, (off + |done|) / BSIZE))
  {
    hide Progress, Tally, Extent, Wrote, FileKept, Shape, Ptr, NewBlocks;
    var ind1 := IndBlock(x, inum, (off + |done|) / BSIZE);
    ProgressFacts(v, w, inum, off, done);
    TallyPointer(v, w, inum, off, |done|, data, bits, ind);
    TallyStep(v, w, x, inum, off, |done|, |bytes|, data, bits, ind, data1, bits1, ind1);
    ProgressStep(v, w, x, inum, off, done, bytes);
  }

  lemma DataStep(off: nat, tot: nat, m: nat, c: nat, c': nat)
    requires DataOk(off, tot, c) && c' <= c + 1
    requires 0 < m && (off + tot) % BSIZE + m <= BSIZE && (tot > 0 ==> (off + tot) % BSIZE == 0)
    ensures DataOk(off, tot + m, c')
  {
    DataCount(off, tot, m);
  }

  lemma BitsFewer(v: Vol, w: Vol, inum: nat, len: nat, c: nat, c': nat)
    requires Shape(v) && Shape(w) && inum < |v.inodes| == |w.inodes| && BitsOk(v, w, inum, len, c) && c' <= c
    ensures BitsOk(v, w, inum, len, c')
  {
  }

  lemma BitsStep(v: Vol, w: Vol, x: Vol, inum: nat, len: nat, len': nat, c: nat, d: nat)
    requires Shape(v) && Shape(w) && Shape(x) && inum < |v.inodes| == |w.inodes| == |x.inodes|
    requires BitsOk(v, w, inum, len, c)
    requires d <= BlocksFor(len') - BlocksFor(len) +
      (if Ptr(w, Pointer(inum)) == 0 && Ptr(x, Pointer(inum)) != 0 then 1 else 0)
    requires Ptr(w, Pointer(inum)) != 0 ==> Ptr(x, Pointer(inum)) == Ptr(w, Pointer(inum))
    requires Ptr(v, Pointer(inum)) != 0 ==> Ptr(w, Pointer(inum)) == Ptr(v, Pointer(inum))
    ensures BitsOk(v, x, inum, len', c + d)
  {
  }

  lemma IndStep(v: Vol, w: Vol, x: Vol, inum: nat, ind: set<nat>, ind1: set<nat>)
    requires Shape(v) && Shape(w) && Shape(x) && inum < |v.inodes| == |w.inodes| == |x.inodes|
    requires IndOk(v, w, inum, ind)
    requires Ptr(w, Pointer(inum)) != 0 ==> Ptr(x, Pointer(inum)) == Ptr(w, Pointer(inum))
    requires ind1 == {} || (Ptr(x, Pointer(inum)) != 0 && ind1 == {Ptr(x, Pointer(inum))})
    ensures IndOk(v, x, inum, ind + ind1)
  {
  }

  lemma DataCount(off: nat, tot: nat, m: nat)
    requires 0 < m && (off + tot) % BSIZE + m <= BSIZE && (tot > 0 ==> (off + tot) % BSIZE == 0)
    ensures (if tot == 0 then 0 else BlocksFor(off + tot) - off / BSIZE) + 1 == BlocksFor(off + (tot + m)) - off / BSIZE
    ensures (off + tot) / BSIZE >= NDIRECT ==> NDIRECT * BSIZE < off + tot + m
  {
    BlocksForChunk(off + tot, m);
  }

  /** Setting the size and updating the inode turns progress into a finished write. */
  lemma WriteDone(v: Vol, w: Vol, owner: map<nat, Slot>, x: Vol, inum: nat, off: nat, src: seq<Byte>)
    requires Progress(v, w, inum, off, src) && Owned(w, owner)
    requires forall f: nat :: f < |v.inodes| ==> FileOk(v, f)
    requires var size := v.inodes[inum].size;
             x == (if |src| > 0 && off + |src| > size
                   then w.(inodes := w.inodes[inum := w.inodes[inum].(size := off + |src|)]) else w)
    ensures Shape(x) && Owned(x, owner)
    ensures Spliced(v, x, inum, off, src)
    ensures forall f: nat :: f < |x.inodes| ==> FileOk(x, f)
    ensures forall f: nat :: f < |x.inodes| && f != inum ==> FileKept(v, x, f)
  {
    SizeOnly(w, owner, x, inum);
    forall f: nat | f < |x.inodes| && f != inum ensures FileKept(v, x, f) && FileOk(x, f) {
      assert FileKept(v, w, f);
      KeptTrans(v, w, x, f);
      KeptContent(v, x, f);
    }
    var size := v.inodes[inum].size;
    var end := Max(size, off + |src|);
    assert x.inodes[inum].size == end;
    SamePtrsExtent(w, x, inum, end);
    ExtentReadable(x, owner, inum, end);
    SplicedContent(v, w, x, inum, off, src);
  }

  lemma SizeOnly(w: Vol, owner: map<nat, Slot>, x: Vol, inum: nat)
    requires Shape(w) && Owned(w, owner) && inum < |w.inodes|
    requires |x.inodes| == |w.inodes| && x == w.(inodes := w.inodes[inum := x.inodes[inum]])
    requires x.inodes[inum].addrs == w.inodes[inum].addrs
    ensures Shape(x) && Owned(x, owner)
    ensures forall t :: ValidSlot(w, t) ==> Ptr(x, t) == Ptr(w, t)
    ensures forall f: nat :: f < |w.inodes| && f != inum ==> FileKept(w, x, f)
  {
    assert forall t :: ValidSlot(w, t) <==> ValidSlot(x, t);
    forall t | ValidSlot(w, t) ensures Ptr(x, t) == Ptr(w, t) {
      assert x.inodes[t.inum].addrs == w.inodes[t.inum].addrs;
    }
    SamePtrsOwned(w, owner, x);
    forall f: nat | f < |w.inodes| && f != inum ensures FileKept(w, x, f) {
      forall bn: nat | bn < MAXFILE ensures Ptr(x, SlotOf(f, bn)) == Ptr(w, SlotOf(f, bn)) {
        assert ValidSlot(w, SlotOf(f, bn));
      }
    }
  }

  lemma SamePtrsOwned(w: Vol, owner: map<nat, Slot>, x: Vol)
    requires Shape(w) && Owned(w, owner) && Shape(x)
    requires |x.inodes| == |w.inodes| && |x.blocks| == |w.blocks| && x.nmeta == w.nmeta && x.used == w.used
    requires forall t :: ValidSlot(w, t) ==> Ptr(x, t) == Ptr(w, t)
    ensures Owned(x, owner)
  {
    forall t | ValidSlot(x, t) && Ptr(x, t) != 0
      ensures x.nmeta <= Ptr(x, t) < |x.blocks| && Ptr(x, t) in owner && owner[Ptr(x, t)] == t
    {
      assert ValidSlot(w, t);
    }
    forall b | b in owner ensures b != 0 && ValidSlot(x, owner[b]) && Ptr(x, owner[b]) == b {
      assert ValidSlot(w, owner[b]);
    }
  }

  lemma SplicedContent(v: Vol, w: Vol, x: Vol, inum: nat, off: nat, src: seq<Byte>)
    requires Shape(v) && Shape(w) && Shape(x) && inum < |v.inodes| == |w.inodes| == |x.inodes|
    requires var size := v.inodes[inum].size;
      && Wrote(v, w, inum, size, off, src) && x.inodes[inum].size == Max(size, off + |src|)
      && Readable(x, inum, Max(size, off + |src|)) && x.blocks == w.blocks
    requires forall t :: ValidSlot(w, t) ==> Ptr(x, t) == Ptr(w, t)
    ensures Content(x, inum) == Overwrite(Content(v, inum), off, src)
  {
    hide Content, Readable, Wrote;
    var size := v.inodes[inum].size;
    WroteReadable(v, w, inum, size, off, src);
    ContentLength(v, inum);
    ContentLength(x, inum);
    var want := Overwrite(Content(v, inum), off, src);
    var got := Content(x, inum);
    forall k: nat | k < |got| ensures got[k] == want[k] {
      SplicedByte(v, w, x, inum, off, src, k);
    }
  }

  lemma WroteReadable(v: Vol, w: Vol, inum: nat, len: nat, off: nat, bytes: seq<Byte>)
    requires Shape(v) && Shape(w) && inum < |v.inodes| == |w.inodes| && Wrote(v, w, inum, len, off, bytes)
    ensures Readable(v, inum, len) && off <= len
  {
  }

  lemma SplicedByte(v: Vol, w: Vol, x: Vol, inum: nat, off: nat, src: seq<Byte>, k: nat)
    requires Shape(v) && Shape(w) && Shape(x) && inum < |v.inodes| == |w.inodes| == |x.inodes|
    requires var size := v.inodes[inum].size;
      && Wrote(v, w, inum, size, off, src) && x.inodes[inum].size == Max(size, off + |src|)
      && Readable(x, inum, Max(size, off + |src|)) && x.blocks == w.blocks && Readable(v, inum, size)
    requires (forall t :: ValidSlot(w, t) ==> Ptr(x, t) == Ptr(w, t)) && k < x.inodes[inum].size
    ensures k < |Content(x, inum)|
    ensures Content(x, inum)[k] ==
      if off <= k < off + |src| then src[k - off] else if k < |Content(v, inum)| then Content(v, inum)[k] else 0
  {
    hide Content, Readable, Ptr;
    ContentAt(x, inum, k);
    assert ValidSlot(w, SlotOf(inum, k / BSIZE));
    assert ByteAt(w, inum, k) == ByteAt(x, inum, k);
    ContentLength(v, inum);
    if k < v.inodes[inum].size { ContentAt(v, inum, k); }
  }

  lemma ReadChunk(v: Vol, inum: nat, cur: nat, m: nat)
    requires Shape(v) && inum < |v.inodes| && Readable(v, inum, v.inodes[inum].size)
    requires 0 < m && cur + m <= v.inodes[inum].size && cur % BSIZE + m <= BSIZE
    ensures cur / BSIZE < MAXFILE
    ensures var a := Ptr(v, SlotOf(inum, cur / BSIZE));
            a < |v.blocks| && v.blocks[a][cur % BSIZE..cur % BSIZE + m] == Content(v, inum)[cur..cur + m]
  {
    hide Content, Readable, Ptr;
    ContentAt(v, inum, cur);
    var a := Ptr(v, SlotOf(inum, cur / BSIZE));
    var got := v.blocks[a][cur % BSIZE..cur % BSIZE + m];
    var want := Content(v, inum)[cur..cur + m];
    forall k: nat | k < m ensures got[k] == want[k] {
      SameIndex(cur, cur + k, m);
      ContentAt(v, inum, cur + k);
    }
  }

  /** One chunk of filewrite fits in the log: with at most 1536 bytes, at most four data
      blocks, four bitmap blocks, one indirect block and one inode block. */
  lemma ChunkFits(size: nat, off: nat, n: nat)
    requires off <= size && n <= FILEWRITE_MAX
    ensures LogBound(size, off, n) <= MAXOPBLOCKS
  {
  }

  // Truncation, on values

  ghost predicate SameShape(v: Vol, w: Vol, inum: nat) {
    && Shape(v) && Shape(w) && inum < |v.inodes| == |w.inodes| && |w.blocks| == |v.blocks| && w.nmeta == v.nmeta
    && w.blocks == v.blocks && w.inodes == v.inodes[inum := w.inodes[inum]]
    && w.inodes[inum].size == v.inodes[inum].size && w.inodes[inum].SameHead(v.inodes[inum])
  }

  /** The direct slots of inum below i are cleared and their blocks disowned. */
  ghost predicate NoDirect(v: Vol, owner: map<nat, Slot>, w: Vol, owner': map<nat, Slot>, inum: nat, i: nat) {
    && SameShape(v, w, inum)
    && (forall t :: ValidSlot(v, t) ==> Ptr(w, t) == if t.Direct? && t.inum == inum && t.i < i then 0 else Ptr(v, t))
    && owner' == (map b | b in owner && !(owner[b].Direct? && owner[b].inum == inum && owner[b].i < i) :: owner[b])
  }

  ghost predicate NoIndirect(v: Vol, owner: map<nat, Slot>, w: Vol, owner': map<nat, Slot>, inum: nat) {
    && SameShape(v, w, inum)
    && (forall t :: ValidSlot(v, t) ==> Ptr(w, t) == if !t.Direct? && t.inum == inum then 0 else Ptr(v, t))
    && owner' == WithoutIndirect(owner, inum)
  }

  lemma NoDirectStart(v: Vol, owner: map<nat, Slot>, inum: nat)
    requires Shape(v) && inum < |v.inodes|
    ensures NoDirect(v, owner, v, owner, inum, 0)
  {
  }

  lemma NoDirectFacts(v: Vol, owner: map<nat, Slot>, w: Vol, owner': map<nat, Slot>, inum: nat, i: nat)
    requires NoDirect(v, owner, w, owner', inum, i)
    ensures SameShape(v, w, inum) && |w.inodes[inum].addrs| == NDIRECT + 1
    ensures i < NDIRECT ==> w.inodes[inum].addrs[i] == Ptr(w, Direct(inum, i))
  {
  }

  lemma NoDirectSkip(v: Vol, owner: map<nat, Slot>, w: Vol, owner': map<nat, Slot>, inum: nat, i: nat)
    requires NoDirect(v, owner, w, owner', inum, i) && i < NDIRECT && Owned(w, owner') && w.inodes[inum].addrs[i] == 0
    ensures NoDirect(v, owner, w, owner', inum, i + 1)
  {
    var want := map b | b in owner && !(owner[b].Direct? && owner[b].inum == inum && owner[b].i < i + 1) :: owner[b];
    forall b | b in owner' ensures b in want {
      assert ValidSlot(w, owner'[b]) && Ptr(w, owner'[b]) == b;
    }
    assert owner' == want;
  }

  lemma NoDirectStep(v: Vol, owner: map<nat, Slot>, w: Vol, owner': map<nat, Slot>, x: Vol, inum: nat, i: nat)
    requires NoDirect(v, owner, w, owner', inum, i) && i < NDIRECT && Owned(w, owner')
    requires var b := Ptr(w, Direct(inum, i));
      && b < |w.used| && b in owner' && owner'[b] == Direct(inum, i)
      && x == WithAddr(w.(used := w.used[b := false]), inum, i, 0) && Shape(x)
      && (forall t :: ValidSlot(w, t) ==> Ptr(x, t) == if t == Direct(inum, i) then 0 else Ptr(w, t))
    ensures NoDirect(v, owner, x, owner' - {Ptr(w, Direct(inum, i))}, inum, i + 1)
  {
    var b := Ptr(w, Direct(inum, i));
    var want := map c | c in owner && !(owner[c].Direct? && owner[c].inum == inum && owner[c].i < i + 1) :: owner[c];
    forall c | c in owner' - {b} ensures c in want {
      assert ValidSlot(w, owner'[c]) && Ptr(w, owner'[c]) == c;
    }
    assert owner' - {b} == want;
  }

  lemma PointerInRange(v: Vol, inum: nat)
    requires Shape(v) && inum < |v.inodes|
    ensures |v.inodes[inum].addrs| == NDIRECT + 1 && v.inodes[inum].addrs[NDIRECT] < |v.blocks| == |v.used|
  {
  }

  lemma FreedStart(v: Vol, owner: map<nat, Slot>, inum: nat)
    ensures FreedEntries(v, owner, inum, 0, v.used)
  {
  }

  lemma NoIndirectNone(v: Vol, owner: map<nat, Slot>, inum: nat)
    requires Shape(v) && Owned(v, owner) && inum < |v.inodes| && Ptr(v, Pointer(inum)) == 0
    ensures NoIndirect(v, owner, v, owner, inum)
  {
    forall b | b in owner ensures b in WithoutIndirect(owner, inum) {
      assert ValidSlot(v, owner[b]) && Ptr(v, owner[b]) == b;
    }
  }

  lemma NoIndirectDone(v: Vol, owner: map<nat, Slot>, w: Vol, inum: nat)
    requires Shape(v) && Shape(w) && inum < |v.inodes|
    requires w == WithAddr(v.(used := w.used), inum, NDIRECT, 0)
    requires forall t :: ValidSlot(v, t) ==> Ptr(w, t) == if t.inum == inum && !t.Direct? then 0 else Ptr(v, t)
    ensures NoIndirect(v, owner, w, WithoutIndirect(owner, inum), inum)
  {
  }

  lemma NoIndirectFacts(v: Vol, owner: map<nat, Slot>, w: Vol, owner': map<nat, Slot>, inum: nat)
    requires NoIndirect(v, owner, w, owner', inum)
    ensures SameShape(v, w, inum)
  {
  }

  lemma TruncatedSlots(v: Vol, owner: map<nat, Slot>, w: Vol, owner1: map<nat, Slot>, x: Vol, owner2: map<nat, Slot>,
                       inum: nat)
    requires NoDirect(v, owner, w, owner1, inum, NDIRECT) && NoIndirect(w, owner1, x, owner2, inum)
    requires Shape(v) && Owned(v, owner)
    ensures SameShape(v, x, inum)
    ensures forall t :: ValidSlot(v, t) ==> Ptr(x, t) == if t.inum == inum then 0 else Ptr(v, t)
    ensures owner2 == map b | b in owner && owner[b].inum != inum :: owner[b]
  {
    forall t | ValidSlot(v, t) ensures Ptr(x, t) == if t.inum == inum then 0 else Ptr(v, t) {
      assert ValidSlot(w, t);
    }
    OwnersLeft(v, owner, owner1, owner2, inum);
  }

  lemma OwnersLeft(v: Vol, owner: map<nat, Slot>, owner1: map<nat, Slot>, owner2: map<nat, Slot>, inum: nat)
    requires Shape(v) && Owned(v, owner)
    requires owner1 ==
      (map b | b in owner && !(owner[b].Direct? && owner[b].inum == inum && owner[b].i < NDIRECT) :: owner[b])
    requires owner2 == WithoutIndirect(owner1, inum)
    ensures owner2 == map b | b in owner && owner[b].inum != inum :: owner[b]
  {
    forall b | b in owner ensures b in owner2 <==> owner[b].inum != inum {
      assert ValidSlot(v, owner[b]);
    }
  }

  lemma TruncatedBits(v: Vol, owner: map<nat, Slot>, x: Vol, owner2: map<nat, Slot>, inum: nat)
    requires Shape(v) && Owned(v, owner) && Shape(x) && Owned(x, owner2) && SameShape(v, x, inum)
    requires owner2 == map b | b in owner && owner[b].inum != inum :: owner[b]
    ensures |x.used| == |v.used| && forall b: nat :: b < |x.used| ==>
      (x.used[b] <==> v.used[b] && !(b in owner && owner[b].inum == inum))
  {
    forall b | b in owner ensures v.nmeta <= b { assert ValidSlot(v, owner[b]); }
  }

  lemma Truncated(v: Vol, owner: map<nat, Slot>, w: Vol, owner1: map<nat, Slot>, x: Vol, owner2: map<nat, Slot>, y: Vol,
                  inum: nat)
    requires Shape(v) && Owned(v, owner) && (forall f: nat :: f < |v.inodes| ==> FileOk(v, f))
    requires NoDirect(v, owner, w, owner1, inum, NDIRECT) && NoIndirect(w, owner1, x, owner2, inum) && Owned(x, owner2)
    requires y == x.(inodes := x.inodes[inum := x.inodes[inum].(size := 0)])
    ensures Shape(y) && Owned(y, owner2) && |y.inodes| == |v.inodes|
    ensures forall f: nat :: f < |y.inodes| ==> FileOk(y, f)
    ensures y.inodes == v.inodes[inum := y.inodes[inum]]
    ensures |y.used| == |v.used| && forall b: nat :: b < |y.used| ==>
      (y.used[b] <==> v.used[b] && !(b in owner && owner[b].inum == inum))
    ensures forall f: nat :: f < |v.inodes| && f != inum ==> FileKept(v, y, f)
  {
    hide Owned, NoDirect, NoIndirect;
    TruncatedSlots(v, owner, w, owner1, x, owner2, inum);
    TruncatedBits(v, owner, x, owner2, inum);
    SizeOnly(x, owner2, y, inum);
    EmptyFile(y, inum);
    forall f: nat | f < |v.inodes| && f != inum ensures FileKept(v, y, f) && FileOk(y, f) {
      forall bn: nat | bn < MAXFILE ensures Ptr(y, SlotOf(f, bn)) == Ptr(v, SlotOf(f, bn)) {
        assert ValidSlot(v, SlotOf(f, bn));
      }
      KeptContent(v, y, f);
    }
  }

  lemma EmptyFile(y: Vol, inum: nat)
    requires Shape(y) && inum < |y.inodes| && y.inodes[inum].size == 0
    requires forall t :: ValidSlot(y, t) && t.inum == inum ==> Ptr(y, t) == 0
    ensures FileOk(y, inum)
  {
    forall bn: nat | bn < MAXFILE ensures Ptr(y, SlotOf(inum, bn)) == 0 {
      assert ValidSlot(y, SlotOf(inum, bn));
    }
    assert ValidSlot(y, Pointer(inum));
  }

  // Chunks of filewrite

  lemma AllKept(v: Vol)
    requires Shape(v)
    ensures forall f: nat :: f < |v.inodes| ==> FileKept(v, v, f)
  {
  }

  lemma KeptAllTrans(u: Vol, v: Vol, w: Vol, inum: nat)
    requires Shape(u) && Shape(v) && Shape(w) && |u.inodes| == |v.inodes| == |w.inodes|
    requires forall f: nat :: f < |u.inodes| && f != inum ==> FileKept(u, v, f)
    requires forall f: nat :: f < |u.inodes| && f != inum ==> FileKept(v, w, f)
    ensures forall f: nat :: f < |u.inodes| && f != inum ==> FileKept(u, w, f)
  {
    forall f: nat | f < |u.inodes| && f != inum ensures FileKept(u, w, f) {
      KeptTrans(u, v, w, f);
    }
  }

  lemma SplicedSize(v: Vol, w: Vol, inum: nat, off: nat, src: seq<Byte>)
    requires Shape(v) && Shape(w) && Spliced(v, w, inum, off, src)
    ensures w.inodes[inum].size == Max(v.inodes[inum].size, off + |src|) && off <= v.inodes[inum].size
    ensures w.inodes[inum].size <= MAXFILE * BSIZE
  {
  }

  /** Writing one piece and then the piece right after it is one write. */
  lemma SplicedTrans(u: Vol, v: Vol, w: Vol, inum: nat, off: nat, a: seq<Byte>, b: seq<Byte>)
    requires Shape(u) && Shape(v) && Shape(w)
    requires Spliced(u, v, inum, off, a) && Spliced(v, w, inum, off + |a|, b)
    ensures Spliced(u, w, inum, off, a + b)
  {
    hide Overwrite;
    ContentLength(u, inum);
    ContentLength(v, inum);
    OverwriteTwice(Content(u, inum), off, a, b);
  }
}
