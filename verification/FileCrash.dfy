/** The file layer over the log: how bitmap and inodes lie in blocks, and what a crash in the
    middle of a filewrite leaves on disk. */
module FileCrash {
  import opened Blocks
  import opened BufferCache
  import opened CrashRecovery
  import FileSystem
  import opened Params
  import Volume

  type Image = FileSystem.Image
  type Geometry = FileSystem.Geometry

  const BPB := FileSystem.BPB
  const IPB := FileSystem.IPB

  // The free bitmap

  function Bit(used: seq<bool>, x: nat): nat {
    if x < |used| && used[x] then 1 else 0
  }

  /** n bits from x on, the first one lowest. */
  function Bits(used: seq<bool>, x: nat, n: nat): nat
    decreases n
  {
    if n == 0 then 0 else Bit(used, x) + 2 * Bits(used, x + 1, n - 1)
  }

  /** 1 << i */
  function Mask(i: nat): nat {
    if i == 0 then 1 else 2 * Mask(i - 1)
  }

  /** w & (1 << i), as a truth value. */
  predicate Test(w: nat, i: nat) {
    if i == 0 then w % 2 == 1 else Test(w / 2, i - 1)
  }

  lemma {:induction false} BitsBelow(used: seq<bool>, x: nat, n: nat)
    ensures Bits(used, x, n) < Mask(n)
    decreases n
  {
    if n > 0 { BitsBelow(used, x + 1, n - 1); }
  }

  lemma Halves(bit: nat, rest: nat)
    requires bit < 2
    ensures (bit + 2 * rest) % 2 == bit && (bit + 2 * rest) / 2 == rest
  {
  }

  lemma {:induction false} BitsTest(used: seq<bool>, x: nat, n: nat, i: nat)
    requires i < n
    ensures Test(Bits(used, x, n), i) <==> Bit(used, x + i) == 1
    decreases n
  {
    var bit, rest := Bit(used, x), Bits(used, x + 1, n - 1);
    Halves(bit, rest);
    if i > 0 { BitsTest(used, x + 1, n - 1, i - 1); }
  }

  lemma {:induction false} BitsChange(used: seq<bool>, x: nat, n: nat, b: nat, to: bool)
    requires b < |used| && used[b] != to
    ensures !(x <= b < x + n) ==> Bits(used[b := to], x, n) == Bits(used, x, n)
    ensures x <= b < x + n ==>
      Bits(used[b := to], x, n) == if to then Bits(used, x, n) + Mask(b - x) else Bits(used, x, n) - Mask(b - x)
    decreases n
  {
    if n > 0 { BitsChange(used, x + 1, n - 1, b, to); }
  }

  function BitmapByte(used: seq<bool>, x: nat): Byte {
    BitsBelow(used, x, 8);
    assert Mask(8) == 2 * Mask(7) && Mask(6) == 2 * Mask(5) && Mask(4) == 2 * Mask(3) && Mask(2) == 2 * Mask(1);
    Bits(used, x, 8)
  }

  /** Bitmap block j: bits j * BPB to (j + 1) * BPB - 1. */
  function BitmapBytes(used: seq<bool>, j: nat): Block {
    seq(BSIZE, k requires 0 <= k < BSIZE => BitmapByte(used, j * BPB + 8 * k))
  }

  /** Where balloc and bfree find the bit of block b. */
  lemma BitPlace(b: nat)
    ensures var bi := b % BPB; bi / 8 < BSIZE && b == b / BPB * BPB + 8 * (bi / 8) + bi % 8
  {
  }

  /** The test of balloc and bfree on the bitmap byte tells whether the block is in use. */
  lemma BitReadsBack(used: seq<bool>, b: nat)
    requires b < |used|
    ensures var bi := b % BPB;
      bi / 8 < BSIZE && (Test(BitmapBytes(used, b / BPB)[bi / 8], bi % 8) <==> used[b])
  {
    hide Bits, Test;
    BitPlace(b);
    var bi := b % BPB;
    BitsTest(used, b / BPB * BPB + 8 * (bi / 8), 8, bi % 8);
  }

  /** Setting or clearing that bit of that byte is marking the block, and only the block. */
  lemma BitUpdate(used: seq<bool>, b: nat, to: bool)
    requires b < |used| && used[b] != to
    ensures var bi := b % BPB;
            var was := BitmapBytes(used, b / BPB);
      && bi / 8 < BSIZE && (if to then was[bi / 8] + Mask(bi % 8) < 256 else Mask(bi % 8) <= was[bi / 8])
      && BitmapBytes(used[b := to], b / BPB) ==
         was[bi / 8 := if to then was[bi / 8] + Mask(bi % 8) else was[bi / 8] - Mask(bi % 8)]
  {
    hide Bits, Mask;
    BitPlace(b);
    var bi, start := b % BPB, b / BPB * BPB;
    BitsChange(used, start + 8 * (bi / 8), 8, b, to);
    forall k | 0 <= k < BSIZE && k != bi / 8
      ensures BitmapByte(used[b := to], start + 8 * k) == BitmapByte(used, start + 8 * k)
    {
      BitsChange(used, start + 8 * k, 8, b, to);
    }
    var now: Byte := BitmapByte(used[b := to], start + 8 * (bi / 8));
    assert now == BitmapBytes(used[b := to], b / BPB)[bi / 8];
  }

  lemma {:induction false} BitsSame(a: seq<bool>, b: seq<bool>, x: nat, n: nat)
    requires |a| == |b| && forall y: nat :: x <= y < x + n && y < |a| ==> a[y] == b[y]
    ensures Bits(a, x, n) == Bits(b, x, n)
    decreases n
  {
    if n > 0 { BitsSame(a, b, x + 1, n - 1); }
  }

  // Inodes

  /** Word f of the 16 words of an inode on disk. */
  function Field(ino: Volume.Inode, f: nat): nat {
    if f == 0 then ino.kind
    else if f == 1 then ino.links
    else if f == 2 then ino.size
    else if f < 3 + |ino.addrs| then ino.addrs[f - 3]
    else 0
  }

  function ByteOf(w: nat, i: nat): Byte {
    if i == 0 then w % 256
    else if i == 1 then w / 256 % 256
    else if i == 2 then w / 0x1_0000 % 256
    else w / 0x100_0000 % 256
  }

  function InodeWord(dinodes: seq<Volume.Inode>, j: nat, w: nat): nat {
    if j * IPB + w / 16 < |dinodes| then Field(dinodes[j * IPB + w / 16], w % 16) else 0
  }

  /** Inode block j: inodes j * IPB to (j + 1) * IPB - 1. */
  function InodeBytes(dinodes: seq<Volume.Inode>, j: nat): Block {
    seq(BSIZE, k requires 0 <= k < BSIZE => ByteOf(InodeWord(dinodes, j, k / 4), k % 4))
  }

  /** Every field of an inode can be read back from its block. */
  lemma InodeReadsBack(dinodes: seq<Volume.Inode>, inum: nat, f: nat)
    requires inum < |dinodes| && f < 16 && Field(dinodes[inum], f) < UINT_LIMIT
    ensures 16 * (inum % IPB) + f < WORDS
    ensures GetWord(InodeBytes(dinodes, inum / IPB), 16 * (inum % IPB) + f) == Field(dinodes[inum], f)
  {
    hide Field, ByteOf;
    var w := 16 * (inum % IPB) + f;
    InodePlace(inum, f, w);
    WordBytes(InodeBytes(dinodes, inum / IPB), w, Field(dinodes[inum], f));
  }

  /** Where the fields of inode inum are in its block: from word 16 * (inum % IPB) on, first type
      and major, then minor and nlink, the size, and the thirteen addresses. */
  lemma InodeLayout(dinodes: seq<Volume.Inode>, inum: nat, k: nat)
    requires inum < |dinodes| && k <= 12 < |dinodes[inum].addrs|
    requires forall f: nat :: f < 16 ==> Field(dinodes[inum], f) < UINT_LIMIT
    ensures var at, b, i := 16 * (inum % 8), InodeBytes(dinodes, inum / 8), dinodes[inum];
      && at + 3 + k < WORDS && GetWord(b, at) == i.kind && GetWord(b, at + 1) == i.links
      && GetWord(b, at + 2) == i.size && GetWord(b, at + 3 + k) == i.addrs[k]
  {
    hide GetWord, InodeBytes;
    InodeReadsBack(dinodes, inum, 0);
    InodeReadsBack(dinodes, inum, 1);
    InodeReadsBack(dinodes, inum, 2);
    InodeReadsBack(dinodes, inum, 3 + k);
  }

  lemma InodePlace(inum: nat, f: nat, w: nat)
    requires f < 16 && w == 16 * (inum % IPB) + f
    ensures w < WORDS && w / 16 == inum % IPB && w % 16 == f && inum / IPB * IPB + inum % IPB == inum
    ensures 4 * w / 4 == (4 * w + 1) / 4 == (4 * w + 2) / 4 == (4 * w + 3) / 4 == w
    ensures 4 * w % 4 == 0 && (4 * w + 1) % 4 == 1 && (4 * w + 2) % 4 == 2 && (4 * w + 3) % 4 == 3
  {
  }

  lemma WordBytes(b: Block, w: nat, x: nat)
    requires w < WORDS && x < UINT_LIMIT
    requires b[4 * w] == ByteOf(x, 0) && b[4 * w + 1] == ByteOf(x, 1) && b[4 * w + 2] == ByteOf(x, 2)
    requires b[4 * w + 3] == ByteOf(x, 3)
    ensures GetWord(b, w) == x
  {
    FourBytes(x);
  }

  lemma FourBytes(x: nat)
    requires x < UINT_LIMIT
    ensures x ==
      x % 256 + 0x100 * (x / 256 % 256) + 0x1_0000 * (x / 0x1_0000 % 256) + 0x100_0000 * (x / 0x100_0000 % 256)
  {
    var q1, q2, q3 := x / 256, x / 0x1_0000, x / 0x100_0000;
    assert x == 256 * q1 + x % 256;
    assert q1 / 256 == q2 && q2 / 256 == q3;
    assert q1 == 256 * q2 + q1 % 256 && q2 == 256 * q3 + q2 % 256 && q3 % 256 == q3;
  }

  // The image on disk

  /** The blocks of a volume: boot and super block, log, inode blocks, bitmap blocks, data. */
  function BlockOf(i: Image, g: Geometry, b: nat): Block {
    if g.bmapstart <= b < g.nmeta then BitmapBytes(i.used, b - g.bmapstart)
    else if g.inodestart <= b < g.bmapstart then InodeBytes(i.dinodes, b - g.inodestart)
    else if b < |i.blocks| then i.blocks[b]
    else ZeroBlock()
  }

  /** A block that was not logged is the same in both images. */
  lemma SameUnlessLogged(i: Image, j: Image, logged: set<nat>, g: Geometry, b: nat)
    requires FileSystem.Covers(i, j, logged, g) && b !in logged
    ensures BlockOf(i, g, b) == BlockOf(j, g, b)
  {
    hide BitmapBytes, InodeBytes;
    if g.bmapstart <= b < g.nmeta {
      forall y: nat | y / BPB == b - g.bmapstart && y < |i.used| ensures i.used[y] == j.used[y] {
        assert g.BitmapBlock(y) == b;
      }
      BitmapSame(i.used, j.used, b - g.bmapstart);
    } else if g.inodestart <= b < g.bmapstart {
      forall k: nat | k / IPB == b - g.inodestart && k < |i.dinodes| ensures i.dinodes[k] == j.dinodes[k] {
        assert g.InodeBlock(k) == b;
      }
      InodesSame(i.dinodes, j.dinodes, b - g.inodestart);
    }
  }

  lemma BitmapSame(a: seq<bool>, b: seq<bool>, n: nat)
    requires |a| == |b| && forall y: nat :: y / BPB == n && y < |a| ==> a[y] == b[y]
    ensures BitmapBytes(a, n) == BitmapBytes(b, n)
  {
    hide Bits;
    forall k | 0 <= k < BSIZE ensures BitmapByte(a, n * BPB + 8 * k) == BitmapByte(b, n * BPB + 8 * k) {
      var x := n * BPB + 8 * k;
      forall y: nat | x <= y < x + 8 && y < |a| ensures a[y] == b[y] {
        SameBitmapBlock(y, n);
      }
      BitsSame(a, b, x, 8);
    }
  }

  lemma InodesSame(a: seq<Volume.Inode>, b: seq<Volume.Inode>, n: nat)
    requires |a| == |b| && forall k: nat :: k / IPB == n && k < |a| ==> a[k] == b[k]
    ensures InodeBytes(a, n) == InodeBytes(b, n)
  {
    hide Field, ByteOf;
    forall w: nat | w < WORDS ensures InodeWord(a, n, w) == InodeWord(b, n, w) {
      SameInodeBlock(w, n);
    }
  }

  lemma SameBitmapBlock(y: nat, n: nat)
    requires n * BPB <= y < (n + 1) * BPB
    ensures y / BPB == n
  {
  }

  lemma SameInodeBlock(w: nat, n: nat)
    requires w < WORDS
    ensures (n * IPB + w / 16) / IPB == n
  {
  }

  /** Outside the log area the disk holds the image. */
  ghost predicate Shows(l: Layout, d: map<Key, Block>, i: Image, g: Geometry) {
    forall b: nat :: l.Home(b) in d && !l.InLog(l.Home(b)) ==> d[l.Home(b)] == BlockOf(i, g, b)
  }

  /** The device has every block of the volume, and the log area, large enough for one
      operation, lies in front of the inodes. */
  ghost predicate Placed(l: Layout, d: map<Key, Block>, i: Image, g: Geometry) {
    && l.start + l.size <= g.inodestart && MAXOPBLOCKS < l.size
    && forall b: nat :: b < |i.blocks| ==> l.Home(b) in d
  }

  function MountBlock(l: Layout, i: Image, g: Geometry, b: nat): Block {
    if l.InLog(l.Home(b)) then ZeroBlock() else BlockOf(i, g, b)
  }

  /** Whatever the image, some disk with an empty log holds it. */
  lemma AnyImageMounts(l: Layout, i: Image, g: Geometry) returns (d: map<Key, Block>)
    requires l.dev != 0 && l.start + l.size <= g.inodestart <= |i.blocks| && MAXOPBLOCKS < l.size
    ensures Idle(l, d) && Placed(l, d, i, g) && Shows(l, d, i, g)
  {
    hide BlockOf, GetWord;
    var keys := set b: nat | b < |i.blocks| :: l.Home(b);
    d := map k | k in keys :: MountBlock(l, i, g, k.blockno);
    ZeroWord(0);
    forall b: nat | b < |i.blocks| ensures l.Home(b) in d {
    }
    forall b | l.start <= b < l.start + l.size ensures Key(l.dev, b) in d && d[Key(l.dev, b)] == ZeroBlock() {
      assert l.Home(b) in d;
    }
    assert HeaderBlocks(d[l.Head()]) == [];
    forall b: nat | l.Home(b) in d ensures d[l.Home(b)] == MountBlock(l, i, g, b) {
    }
  }

  /** order lists the logged blocks, each once, as their first log_writes came. */
  ghost predicate Enumerates(order: seq<nat>, logged: set<nat>) {
    && (forall b :: b in order <==> b in logged)
    && (forall x, y :: 0 <= x < y < |order| ==> order[x] != order[y])
  }

  lemma {:induction false} OrderSize(order: seq<nat>, logged: set<nat>)
    requires Enumerates(order, logged)
    ensures |order| == |logged|
    decreases |order|
  {
    if order == [] {
      assert logged == {};
    } else {
      var last, rest := order[|order| - 1], order[..|order| - 1];
      forall b ensures b in rest <==> b in logged - {last} {
        assert order == rest + [last];
      }
      OrderSize(rest, logged - {last});
    }
  }

  /** The transaction that carries image j to disk. */
  function TxnOf(l: Layout, order: seq<nat>, j: Image, g: Geometry): Txn {
    Txn(order, map b | b in order :: l.Home(b) := BlockOf(j, g, b))
  }

  /** It is one that the log can commit: it fits, and it stays clear of the log area. */
  lemma TxnGood(l: Layout, d: map<Key, Block>, order: seq<nat>, logged: set<nat>, i: Image, j: Image, g: Geometry)
    requires FileSystem.Covers(i, j, logged, g) && Enumerates(order, logged) && |logged| <= MAXOPBLOCKS
    requires Placed(l, d, i, g)
    ensures GoodTxn(l, d, TxnOf(l, order, j, g))
  {
    hide BlockOf;
    OrderSize(order, logged);
    forall x | 0 <= x < |order| ensures g.inodestart <= order[x] < |i.blocks| {
      assert order[x] in logged;
    }
  }

  /** Applied to a disk that holds i it gives one that holds j. */
  lemma AfterShows(l: Layout, d: map<Key, Block>, order: seq<nat>, logged: set<nat>, i: Image, j: Image, g: Geometry,
                   e: map<Key, Block>)
    requires Shows(l, d, i, g) && FileSystem.Covers(i, j, logged, g) && Enumerates(order, logged)
    requires HasContent(l, TxnOf(l, order, j, g)) && SameHomes(l, e, After(l, d, TxnOf(l, order, j, g)))
    ensures Shows(l, e, j, g)
  {
    hide BlockOf, FileSystem.Covers;
    forall b: nat | l.Home(b) in e && !l.InLog(l.Home(b)) ensures e[l.Home(b)] == BlockOf(j, g, b) {
      if b !in order { SameUnlessLogged(i, j, logged, g, b); }
    }
  }

  lemma SameShows(l: Layout, d: map<Key, Block>, e: map<Key, Block>, i: Image, g: Geometry)
    requires Shows(l, d, i, g) && SameHomes(l, e, d)
    ensures Shows(l, e, i, g)
  {
    hide BlockOf;
  }

  lemma SamePlaced(l: Layout, d: map<Key, Block>, e: map<Key, Block>, i: Image, j: Image, logged: set<nat>, g: Geometry)
    requires Placed(l, d, i, g) && e.Keys == d.Keys && FileSystem.Covers(i, j, logged, g)
    ensures Placed(l, e, j, g)
  {
  }

  /** One event of the log while the file layer goes from image i to image j: afterwards the
      disk holds j if the header write was made and i otherwise, and nothing in between. */
  lemma EventShows(l: Layout, d: map<Key, Block>, ev: Event, order: seq<nat>, logged: set<nat>, i: Image, j: Image,
                   g: Geometry)
    requires Idle(l, d) && Happens(l, d, ev) && ev.t == TxnOf(l, order, j, g)
    requires Shows(l, d, i, g) && FileSystem.Covers(i, j, logged, g) && Enumerates(order, logged)
    ensures var e := DiskAfter(l, d, ev);
      && Idle(l, e) && e.Keys == d.Keys
      && Shows(l, e, if ev.Crashed? && ev.k <= |order| then i else j, g)
  {
    hide Shows, Idle, Happens, DiskAfter, TxnOf, FileSystem.Covers, Enumerates;
    EventHomes(l, d, ev);
    HappensFacts(l, d, ev);
    TxnOrder(l, order, j, g);
    if ev.Crashed? && ev.k <= |order| {
      SameShows(l, d, DiskAfter(l, d, ev), i, g);
    } else {
      AfterShows(l, d, order, logged, i, j, g, DiskAfter(l, d, ev));
    }
  }

  lemma TxnOrder(l: Layout, order: seq<nat>, j: Image, g: Geometry)
    ensures TxnOf(l, order, j, g).blocks == order
  {
  }

  lemma HappensFacts(l: Layout, d: map<Key, Block>, ev: Event)
    requires Happens(l, d, ev)
    ensures HasContent(l, ev.t)
  {
  }

  // Crashes in a filewrite

  /** The disk once the first n chunks are committed. */
  ghost function DiskAfterChunks(l: Layout, d: map<Key, Block>, orders: seq<seq<nat>>, images: seq<Image>, g: Geometry,
                                 n: nat): map<Key, Block>
    requires n <= |orders| && n < |images|
  {
    if n == 0 then d
    else
      var c := DiskAfterChunks(l, d, orders, images, g, n - 1);
      var ev := Committed(TxnOf(l, orders[n - 1], images[n], g));
      if Happens(l, c, ev) then DiskAfter(l, c, ev) else c
  }

  /** The commit of t on disk d stops after k writes, and the recoveries that follow after
      cuts of theirs, which leaves e. */
  ghost predicate CrashIn(l: Layout, d: map<Key, Block>, t: Txn, k: nat, cuts: seq<nat>, e: map<Key, Block>) {
    l.Head() in d && GoodTxn(l, d, t) ==>
      k <= |CommitWrites(l, d, t)| && Interrupted(l, Apply(d, CommitWrites(l, d, t)[..k]), cuts, e)
  }

  /** What a filewrite has logged, in the order of its log_writes. */
  ghost predicate Orders(orders: seq<seq<nat>>, txns: seq<set<nat>>) {
    |orders| == |txns| && forall t: nat :: t < |txns| ==> Enumerates(orders[t], txns[t])
  }

  lemma LedgerAt(v: Volume.Vol, images: seq<Image>, txns: seq<set<nat>>, g: Geometry, inum: nat, off: nat,
                 src: seq<Byte>, orders: seq<seq<nat>>, t: nat)
    requires FileSystem.Ledger(v, images, txns, g, inum, off, src) && Orders(orders, txns) && t < |txns|
    ensures |images| == |txns| + 1 && |orders| == |txns| && FileSystem.Covers(images[t], images[t + 1], txns[t], g)
    ensures |txns[t]| <= MAXOPBLOCKS && Enumerates(orders[t], txns[t])
    ensures FileSystem.PrefixWritten(v, images[t + 1], inum, off, src, t + 1)
    ensures t > 0 ==> FileSystem.PrefixWritten(v, images[t], inum, off, src, t)
  {
    hide FileSystem.Covers, FileSystem.PrefixWritten;
  }

  lemma {:induction false} ChunksShow(v: Volume.Vol, images: seq<Image>, txns: seq<set<nat>>, g: Geometry, inum: nat,
                                      off: nat, src: seq<Byte>, orders: seq<seq<nat>>, l: Layout, d: map<Key, Block>,
                                      n: nat)
    requires FileSystem.Ledger(v, images, txns, g, inum, off, src) && Orders(orders, txns)
    requires n <= |txns| < |images| && |orders| == |txns|
    requires Idle(l, d) && Placed(l, d, images[0], g) && Shows(l, d, images[0], g)
    ensures var c := DiskAfterChunks(l, d, orders, images, g, n);
      Idle(l, c) && Placed(l, c, images[n], g) && Shows(l, c, images[n], g)
  {
    hide Shows, Idle, Placed, DiskAfter, TxnOf, FileSystem.Covers, FileSystem.Ledger, Orders, Enumerates;
    if n > 0 {
      var c := DiskAfterChunks(l, d, orders, images, g, n - 1);
      ChunksShow(v, images, txns, g, inum, off, src, orders, l, d, n - 1);
      LedgerAt(v, images, txns, g, inum, off, src, orders, n - 1);
      TxnGood(l, c, orders[n - 1], txns[n - 1], images[n - 1], images[n], g);
      IdleHead(l, c);
      var ev := Committed(TxnOf(l, orders[n - 1], images[n], g));
      EventShows(l, c, ev, orders[n - 1], txns[n - 1], images[n - 1], images[n], g);
      SamePlaced(l, c, DiskAfter(l, c, ev), images[n - 1], images[n], txns[n - 1], g);
    }
  }

  lemma IdleHead(l: Layout, d: map<Key, Block>)
    requires Idle(l, d)
    ensures l.Head() in d
  {
    assert l.Head() == Key(l.dev, l.start);
  }

  /** Crash atomicity of filewrite.  It logs and changes the volume as its ledger says, on any
      disk that holds the volume; n chunks are committed; the machine stops anywhere in the
      commit of the next one and anywhere in the recoveries after that.  Then the recovered
      disk holds the sound volume before or after that chunk, so the file has that much of
      src written and no other file or block has changed. */
  lemma FileWriteCrash(v: Volume.Vol, images: seq<Image>, txns: seq<set<nat>>, g: Geometry, inum: nat, off: nat,
                       src: seq<Byte>, orders: seq<seq<nat>>, l: Layout, d: map<Key, Block>, n: nat, k: nat,
                       cuts: seq<nat>, e: map<Key, Block>)
    requires FileSystem.Ledger(v, images, txns, g, inum, off, src) && Orders(orders, txns)
    requires n < |txns| < |images| && |orders| == |txns|
    requires Idle(l, d) && Placed(l, d, images[0], g) && Shows(l, d, images[0], g)
    requires CrashIn(l, DiskAfterChunks(l, d, orders, images, g, n), TxnOf(l, orders[n], images[n + 1], g), k, cuts, e)
    ensures Formatted(l, e) && Idle(l, Recover(l, e))
    ensures var m := if k > |orders[n]| then n + 1 else n;
      && Shows(l, Recover(l, e), images[m], g)
      && (m > 0 ==> FileSystem.PrefixWritten(v, images[m], inum, off, src, m))
  {
    hide Shows, Idle, Placed, TxnOf, FileSystem.Covers, FileSystem.Ledger, FileSystem.PrefixWritten;
    hide Orders, Enumerates, Recover, Formatted, DiskAfterChunks;
    var c := DiskAfterChunks(l, d, orders, images, g, n);
    var t := TxnOf(l, orders[n], images[n + 1], g);
    ChunksShow(v, images, txns, g, inum, off, src, orders, l, d, n);
    LedgerAt(v, images, txns, g, inum, off, src, orders, n);
    TxnGood(l, c, orders[n], txns[n], images[n], images[n + 1], g);
    IdleHead(l, c);
    CrashAtomicity(l, c, t, k, cuts, e);
    EventShows(l, c, Crashed(t, k, cuts, e), orders[n], txns[n], images[n], images[n + 1], g);
  }
}
