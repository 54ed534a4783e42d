/** The on-disk protocol of log.c.  A commit or a recovery is a sequence of atomic
    block writes, and a crash keeps an arbitrary prefix of the sequence. */
module CrashRecovery {
  import opened Blocks
  import opened BufferCache
  import opened Params

  /** Log area: the header at block start, then size - 1 data slots. */
  datatype Layout = Layout(dev: nat, start: nat, size: nat) {
    function Head(): Key { Key(dev, start) }
    function Slot(t: nat): Key { Key(dev, start + 1 + t) }
    function Home(b: nat): Key { Key(dev, b) }
    predicate InLog(k: Key) { k.dev == dev && start <= k.blockno < start + size }
  }

  /** The blocks of one transaction and the plain map holding their new bytes. */
  datatype Txn = Txn(blocks: seq<nat>, content: map<Key, Block>)

  // The header block

  function HeaderCount(b: Block): nat { GetWord(b, 0) }

  function HeaderBlocks(b: Block): seq<nat>
    requires HeaderCount(b) <= LOGSIZE
  {
    seq(HeaderCount(b), i requires 0 <= i < HeaderCount(b) => GetWord(b, 1 + i))
  }

  ghost predicate Words(blocks: seq<nat>) {
    |blocks| <= LOGSIZE && forall i :: 0 <= i < |blocks| ==> blocks[i] < UINT_LIMIT
  }

  /** The first i entries of the write_head loop. */
  function FillHeader(b: Block, blocks: seq<nat>, i: nat): Block
    requires Words(blocks) && i <= |blocks|
  {
    if i == 0 then PutWord(b, 0, |blocks|) else PutWord(FillHeader(b, blocks, i - 1), i, blocks[i - 1])
  }

  /** write_head overwrites only the words in use; the rest of the block stays. */
  function WithHeader(b: Block, blocks: seq<nat>): Block
    requires Words(blocks)
  {
    FillHeader(b, blocks, |blocks|)
  }

  lemma {:induction false} FillHeaderWords(b: Block, blocks: seq<nat>, i: nat, j: nat)
    requires Words(blocks) && i <= |blocks| && j < WORDS
    ensures GetWord(FillHeader(b, blocks, i), j) ==
            if j == 0 then |blocks| else if j <= i then blocks[j - 1] else GetWord(b, j)
  {
    if i == 0 {
      if j == 0 { GetPutSame(b, 0, |blocks|); } else { GetPutOther(b, 0, |blocks|, j); }
    } else {
      FillHeaderWords(b, blocks, i - 1, j);
      var c := FillHeader(b, blocks, i - 1);
      if j == i { GetPutSame(c, i, blocks[i - 1]); } else { GetPutOther(c, i, blocks[i - 1], j); }
    }
  }

  /** read_head reads back what write_head wrote, whatever the block held before. */
  lemma HeaderRoundTrip(b: Block, blocks: seq<nat>)
    requires Words(blocks)
    ensures HeaderCount(WithHeader(b, blocks)) == |blocks|
    ensures HeaderBlocks(WithHeader(b, blocks)) == blocks
  {
    FillHeaderWords(b, blocks, |blocks|, 0);
    forall i | 0 <= i < |blocks| ensures GetWord(WithHeader(b, blocks), 1 + i) == blocks[i] {
      FillHeaderWords(b, blocks, |blocks|, 1 + i);
    }
  }

  // Sequences of block writes

  function Apply(d: map<Key, Block>, ws: seq<Write>): map<Key, Block> {
    if ws == [] then d
    else var w := ws[|ws| - 1]; Apply(d, ws[..|ws| - 1])[w.key := w.data]
  }

  lemma {:induction false} ApplyConcat(d: map<Key, Block>, us: seq<Write>, ws: seq<Write>)
    ensures Apply(d, us + ws) == Apply(Apply(d, us), ws)
  {
    if ws == [] {
      assert us + ws == us;
    } else {
      assert (us + ws)[..|us + ws| - 1] == us + ws[..|ws| - 1];
      ApplyConcat(d, us, ws[..|ws| - 1]);
    }
  }

  /** write_log: the new bytes go to the log slots. */
  function LogWrites(l: Layout, t: Txn): seq<Write>
    requires HasContent(l, t)
  {
    seq(|t.blocks|, i requires 0 <= i < |t.blocks| => Write(l.Slot(i), t.content[l.Home(t.blocks[i])]))
  }

  /** install_trans after write_head, during a commit. */
  function InstallWrites(l: Layout, t: Txn): seq<Write>
    requires HasContent(l, t)
  {
    seq(|t.blocks|, i requires 0 <= i < |t.blocks| =>
      Write(l.Home(t.blocks[i]), t.content[l.Home(t.blocks[i])]))
  }

  predicate HasContent(l: Layout, t: Txn) {
    forall i :: 0 <= i < |t.blocks| ==> l.Home(t.blocks[i]) in t.content
  }

  function CommitWrites(l: Layout, d: map<Key, Block>, t: Txn): seq<Write>
    requires HasContent(l, t) && Words(t.blocks) && l.Head() in d
  {
    if t.blocks == [] then []
    else
      var head := WithHeader(d[l.Head()], t.blocks);
      LogWrites(l, t) + [Write(l.Head(), head)] + InstallWrites(l, t) + [Write(l.Head(), WithHeader(head, []))]
  }

  /** The log area is on the disk and its header is one that write_head or mkfs wrote. */
  ghost predicate Formatted(l: Layout, d: map<Key, Block>) {
    && l.dev != 0 && l.size >= 1
    && (forall b :: l.start <= b < l.start + l.size ==> Key(l.dev, b) in d)
    && HeaderCount(d[l.Head()]) <= LOGSIZE
    && HeaderCount(d[l.Head()]) < l.size
    && Loggable(l, d, HeaderBlocks(d[l.Head()]))
  }

  /** Distinct home blocks outside the log area, few enough for the header and the slots. */
  ghost predicate Loggable(l: Layout, d: map<Key, Block>, blocks: seq<nat>) {
    && Words(blocks) && |blocks| < l.size
    && (forall i :: 0 <= i < |blocks| ==> !l.InLog(l.Home(blocks[i])) && l.Home(blocks[i]) in d)
    && (forall i, j :: 0 <= i < j < |blocks| ==> blocks[i] != blocks[j])
  }

  /** recover_from_log: the header decides what is copied; then the header is cleared. */
  function RecoverWrites(l: Layout, d: map<Key, Block>): seq<Write>
    requires Formatted(l, d)
  {
    var blocks := HeaderBlocks(d[l.Head()]);
    seq(|blocks|, i requires 0 <= i < |blocks| => Write(l.Home(blocks[i]), d[l.Slot(i)]))
    + [Write(l.Head(), WithHeader(d[l.Head()], []))]
  }

  /** The disk that the transaction asks for, as a plain map. */
  function After(l: Layout, d: map<Key, Block>, t: Txn): map<Key, Block>
    requires HasContent(l, t)
  {
    map k | k in d :: if k.dev == l.dev && k.blockno in t.blocks then t.content[k] else d[k]
  }

  ghost predicate SameHomes(l: Layout, d: map<Key, Block>, e: map<Key, Block>) {
    d.Keys == e.Keys && forall k :: k in d && !l.InLog(k) ==> d[k] == e[k]
  }

  ghost predicate Idle(l: Layout, d: map<Key, Block>) {
    Formatted(l, d) && HeaderCount(d[l.Head()]) == 0
  }

  /** The header names the transaction and the slots hold its bytes; its home blocks
      may hold anything, all other blocks are as in d0. */
  ghost predicate Pending(l: Layout, d: map<Key, Block>, d0: map<Key, Block>, t: Txn)
    requires HasContent(l, t)
  {
    && Formatted(l, d) && d.Keys == d0.Keys
    && HeaderBlocks(d[l.Head()]) == t.blocks
    && (forall i :: 0 <= i < |t.blocks| ==> d[l.Slot(i)] == t.content[l.Home(t.blocks[i])])
    && (forall k :: k in d && !l.InLog(k) && !(k.dev == l.dev && k.blockno in t.blocks) ==> d[k] == d0[k])
  }

  /** A transaction that log_write can have built on top of disk d. */
  ghost predicate GoodTxn(l: Layout, d: map<Key, Block>, t: Txn) {
    HasContent(l, t) && Loggable(l, d, t.blocks)
  }

  // One commit

  /** Before write_head nothing but log slots has changed. */
  lemma {:induction false} LogPhase(l: Layout, d: map<Key, Block>, t: Txn, k: nat)
    requires Idle(l, d) && GoodTxn(l, d, t) && k <= |t.blocks|
    ensures var e := Apply(d, LogWrites(l, t)[..k]);
      && e.Keys == d.Keys && SameHomes(l, e, d) && e[l.Head()] == d[l.Head()]
      && (forall i :: 0 <= i < k ==> e[l.Slot(i)] == t.content[l.Home(t.blocks[i])])
  {
    var ws := LogWrites(l, t);
    if k > 0 {
      LogPhase(l, d, t, k - 1);
      assert ws[..k][..k - 1] == ws[..k - 1];
    }
  }

  lemma IdlePreserved(l: Layout, d: map<Key, Block>, e: map<Key, Block>)
    requires Idle(l, d) && e.Keys == d.Keys && HeaderCount(e[l.Head()]) == 0
    ensures Idle(l, e)
  {
    assert HeaderBlocks(e[l.Head()]) == [];
  }

  /** Copying one slot home keeps the transaction pending. */
  lemma InstallStep(l: Layout, d: map<Key, Block>, d0: map<Key, Block>, t: Txn, j: nat)
    requires GoodTxn(l, d0, t) && Pending(l, d, d0, t) && j < |t.blocks|
    ensures var h := l.Home(t.blocks[j]);
            var e := d[h := t.content[h]];
            Pending(l, e, d0, t) && e[l.Head()] == d[l.Head()]
  {
    var h := l.Home(t.blocks[j]);
    var e := d[h := t.content[h]];
    assert e.Keys == d.Keys;
    forall i | 0 <= i < |t.blocks| ensures e[l.Slot(i)] == d[l.Slot(i)] { assert l.InLog(l.Slot(i)); }
  }

  /** Copying any prefix of the slots home keeps the transaction pending. */
  lemma {:induction false} InstallPhase(l: Layout, d: map<Key, Block>, d0: map<Key, Block>, t: Txn, k: nat)
    requires GoodTxn(l, d0, t) && Pending(l, d, d0, t) && k <= |t.blocks|
    ensures var e := Apply(d, InstallWrites(l, t)[..k]);
      && Pending(l, e, d0, t)
      && e[l.Head()] == d[l.Head()]
      && (forall i :: 0 <= i < k ==> e[l.Home(t.blocks[i])] == t.content[l.Home(t.blocks[i])])
  {
    var ws := InstallWrites(l, t);
    if k == 0 {
      assert ws[..0] == [];
    } else {
      InstallPhase(l, d, d0, t, k - 1);
      assert ws[..k][..k - 1] == ws[..k - 1];
      InstallStep(l, Apply(d, ws[..k - 1]), d0, t, k - 1);
    }
  }

  /** Clearing the header of a fully installed transaction gives exactly the new disk. */
  lemma ClearInstalled(l: Layout, d: map<Key, Block>, d0: map<Key, Block>, t: Txn)
    requires GoodTxn(l, d0, t) && Pending(l, d, d0, t)
    requires forall i :: 0 <= i < |t.blocks| ==> d[l.Home(t.blocks[i])] == t.content[l.Home(t.blocks[i])]
    ensures var e := d[l.Head() := WithHeader(d[l.Head()], [])];
            Idle(l, e) && SameHomes(l, e, After(l, d0, t))
  {
    var e := d[l.Head() := WithHeader(d[l.Head()], [])];
    HeaderRoundTrip(d[l.Head()], []);
    assert e.Keys == d.Keys;
    assert HeaderBlocks(e[l.Head()]) == [];
    var a := After(l, d0, t);
    forall k | k in e && !l.InLog(k) ensures e[k] == a[k] {
      if k.dev == l.dev && k.blockno in t.blocks {
        var i :| 0 <= i < |t.blocks| && t.blocks[i] == k.blockno;
        assert k == l.Home(t.blocks[i]);
      }
    }
  }

  /** Writing the header over a full log is the commit point. */
  lemma HeadPhase(l: Layout, d: map<Key, Block>, d0: map<Key, Block>, t: Txn)
    requires Idle(l, d0) && GoodTxn(l, d0, t)
    requires d.Keys == d0.Keys && SameHomes(l, d, d0) && d[l.Head()] == d0[l.Head()]
    requires forall i :: 0 <= i < |t.blocks| ==> d[l.Slot(i)] == t.content[l.Home(t.blocks[i])]
    ensures Pending(l, d[l.Head() := WithHeader(d0[l.Head()], t.blocks)], d0, t)
  {
    HeaderRoundTrip(d0[l.Head()], t.blocks);
    assert d[l.Head() := WithHeader(d0[l.Head()], t.blocks)].Keys == d.Keys;
  }

  /** Where a commit of n blocks stands after its first k writes. */
  ghost predicate CommitStage(l: Layout, e: map<Key, Block>, d: map<Key, Block>, t: Txn, k: nat)
    requires HasContent(l, t)
  {
    var n := |t.blocks|;
    if k <= n then Idle(l, e) && SameHomes(l, e, d)
    else if k <= 2 * n + 1 then Pending(l, e, d, t)
    else Idle(l, e) && SameHomes(l, e, After(l, d, t))
  }

  /** The disk right after the header write. */
  lemma CommitPoint(l: Layout, d: map<Key, Block>, t: Txn)
    requires Idle(l, d) && GoodTxn(l, d, t)
    ensures var head := WithHeader(d[l.Head()], t.blocks);
            var e := Apply(d, LogWrites(l, t) + [Write(l.Head(), head)]);
            Pending(l, e, d, t) && e[l.Head()] == head
  {
    var head := WithHeader(d[l.Head()], t.blocks);
    var ws := LogWrites(l, t);
    LogPhase(l, d, t, |t.blocks|);
    assert ws[..|t.blocks|] == ws;
    HeadPhase(l, Apply(d, ws), d, t);
    assert (ws + [Write(l.Head(), head)])[..|ws|] == ws;
  }

  lemma CommitPrefix(l: Layout, d: map<Key, Block>, t: Txn, k: nat)
    requires Idle(l, d) && GoodTxn(l, d, t) && k <= |CommitWrites(l, d, t)|
    ensures CommitStage(l, Apply(d, CommitWrites(l, d, t)[..k]), d, t, k)
  {
    var n := |t.blocks|;
    var ws := CommitWrites(l, d, t);
    if n == 0 || k <= n {
      assert ws[..k] == LogWrites(l, t)[..k];
      LogPhase(l, d, t, k);
      IdlePreserved(l, d, Apply(d, ws[..k]));
    } else {
      CommitLatePrefix(l, d, t, k);
    }
  }

  lemma CommitLatePrefix(l: Layout, d: map<Key, Block>, t: Txn, k: nat)
    requires Idle(l, d) && l.Head() in d && GoodTxn(l, d, t)
    requires 0 < |t.blocks| < k <= |CommitWrites(l, d, t)|
    ensures CommitStage(l, Apply(d, CommitWrites(l, d, t)[..k]), d, t, k)
  {
    hide Pending, Idle, Formatted, SameHomes, After, LogWrites, InstallWrites, WithHeader;
    var n := |t.blocks|;
    var ws := CommitWrites(l, d, t);
    var head := WithHeader(d[l.Head()], t.blocks);
    var logs, homes := LogWrites(l, t), InstallWrites(l, t);
    var us := logs + [Write(l.Head(), head)];
    WriteCounts(l, t);
    CommitPoint(l, d, t);
    var e := Apply(d, us);
    var j := if k <= 2 * n + 1 then k - n - 1 else n;
    InstallPhase(l, e, d, t, j);
    ApplyConcat(d, us, homes[..j]);
    if k <= 2 * n + 1 {
      assert ws[..k] == us + homes[..j];
    } else {
      assert homes[..n] == homes;
      ClearInstalled(l, Apply(e, homes), d, t);
      assert ws[..k] == ws && ws[..|ws| - 1] == us + homes;
    }
  }

  lemma WriteCounts(l: Layout, t: Txn)
    requires HasContent(l, t)
    ensures |LogWrites(l, t)| == |InstallWrites(l, t)| == |t.blocks|
  {
  }

  // Recovery, possibly cut short again and again

  lemma RecoverPendingPrefix(l: Layout, d: map<Key, Block>, d0: map<Key, Block>, t: Txn, k: nat)
    requires GoodTxn(l, d0, t) && Pending(l, d, d0, t) && k <= |RecoverWrites(l, d)|
    ensures var e := Apply(d, RecoverWrites(l, d)[..k]);
      if k <= |t.blocks| then Pending(l, e, d0, t)
      else Idle(l, e) && SameHomes(l, e, After(l, d0, t))
  {
    var n := |t.blocks|;
    var ws := RecoverWrites(l, d);
    var j := if k <= n then k else n;
    assert ws[..n] == InstallWrites(l, t);
    InstallPhase(l, d, d0, t, j);
    if k <= n {
      assert ws[..k] == InstallWrites(l, t)[..k];
    } else {
      assert InstallWrites(l, t)[..n] == InstallWrites(l, t);
      ClearInstalled(l, Apply(d, InstallWrites(l, t)), d0, t);
      assert ws[..k] == ws && ws[..|ws| - 1] == InstallWrites(l, t);
    }
  }

  lemma RecoverIdlePrefix(l: Layout, d: map<Key, Block>, k: nat)
    requires Idle(l, d) && k <= |RecoverWrites(l, d)|
    ensures var e := Apply(d, RecoverWrites(l, d)[..k]);
            Idle(l, e) && SameHomes(l, e, d)
  {
    var ws := RecoverWrites(l, d);
    assert |ws| == 1 && ws[..0] == [];
    if k == 1 {
      HeaderRoundTrip(d[l.Head()], []);
      assert ws[..1] == ws && Apply(d, ws) == Apply(d, ws[..0])[l.Head() := ws[0].data];
      IdlePreserved(l, d, Apply(d, ws));
    }
  }

  function Recover(l: Layout, d: map<Key, Block>): map<Key, Block>
    requires Formatted(l, d)
  {
    Apply(d, RecoverWrites(l, d))
  }

  /** e is a disk that d can become through recoveries that each stop after some write. */
  ghost predicate Interrupted(l: Layout, d: map<Key, Block>, cuts: seq<nat>, e: map<Key, Block>)
    decreases |cuts|
  {
    if cuts == [] then e == d
    else
      && Formatted(l, d) && cuts[0] < |RecoverWrites(l, d)|
      && Interrupted(l, Apply(d, RecoverWrites(l, d)[..cuts[0]]), cuts[1..], e)
  }

  lemma {:induction false} InterruptedPending(l: Layout, d: map<Key, Block>, cuts: seq<nat>, e: map<Key, Block>,
                                              d0: map<Key, Block>, t: Txn)
    requires GoodTxn(l, d0, t) && Pending(l, d, d0, t) && Interrupted(l, d, cuts, e)
    ensures Pending(l, e, d0, t)
    decreases |cuts|
  {
    if cuts != [] {
      RecoverPendingPrefix(l, d, d0, t, cuts[0]);
      InterruptedPending(l, Apply(d, RecoverWrites(l, d)[..cuts[0]]), cuts[1..], e, d0, t);
    }
  }

  lemma {:induction false} InterruptedIdle(l: Layout, d: map<Key, Block>, cuts: seq<nat>, e: map<Key, Block>)
    requires Idle(l, d) && Interrupted(l, d, cuts, e)
    ensures Idle(l, e) && SameHomes(l, e, d)
    decreases |cuts|
  {
    if cuts != [] {
      RecoverIdlePrefix(l, d, cuts[0]);
      InterruptedIdle(l, Apply(d, RecoverWrites(l, d)[..cuts[0]]), cuts[1..], e);
    }
  }

  /** Crash atomicity.  A commit stops after k of its writes; any number of recoveries
      are cut short; the first recovery that completes leaves the home blocks all new
      if the first write_head reached the disk and all old otherwise. */
  lemma CrashAtomicity(l: Layout, d: map<Key, Block>, t: Txn, k: nat, cuts: seq<nat>, e: map<Key, Block>)
    requires Idle(l, d) && GoodTxn(l, d, t) && k <= |CommitWrites(l, d, t)|
    requires Interrupted(l, Apply(d, CommitWrites(l, d, t)[..k]), cuts, e)
    ensures Formatted(l, e)
    ensures Idle(l, Recover(l, e))
    ensures SameHomes(l, Recover(l, e), if k > |t.blocks| then After(l, d, t) else d)
  {
    var c := Apply(d, CommitWrites(l, d, t)[..k]);
    CommitPrefix(l, d, t, k);
    if |t.blocks| < k <= 2 * |t.blocks| + 1 {
      InterruptedPending(l, c, cuts, e, d, t);
      RecoverPendingPrefix(l, e, d, t, |RecoverWrites(l, e)|);
    } else {
      InterruptedIdle(l, c, cuts, e);
      RecoverIdlePrefix(l, e, |RecoverWrites(l, e)|);
    }
    assert RecoverWrites(l, e)[..|RecoverWrites(l, e)|] == RecoverWrites(l, e);
  }

  // Histories of transactions

  /** Every transaction in turn commits without a crash. */
  ghost predicate Commits(l: Layout, d: map<Key, Block>, ts: seq<Txn>, e: map<Key, Block>)
    decreases |ts|
  {
    if ts == [] then e == d
    else
      && l.Head() in d && GoodTxn(l, d, ts[0])
      && Commits(l, Apply(d, CommitWrites(l, d, ts[0])), ts[1..], e)
  }

  /** The plain map after the whole history. */
  function History(l: Layout, d: map<Key, Block>, ts: seq<Txn>): map<Key, Block>
    requires forall i :: 0 <= i < |ts| ==> HasContent(l, ts[i])
    decreases |ts|
  {
    if ts == [] then d else History(l, After(l, d, ts[0]), ts[1..])
  }

  lemma {:induction false} HistoryHomes(l: Layout, d: map<Key, Block>, e: map<Key, Block>, ts: seq<Txn>)
    requires SameHomes(l, d, e) && forall i :: 0 <= i < |ts| ==> HasContent(l, ts[i])
    ensures SameHomes(l, History(l, d, ts), History(l, e, ts))
    decreases |ts|
  {
    if ts != [] {
      HistoryHomes(l, After(l, d, ts[0]), After(l, e, ts[0]), ts[1..]);
    }
  }

  lemma {:induction false} CommitsHistory(l: Layout, d: map<Key, Block>, ts: seq<Txn>, e: map<Key, Block>)
    requires Idle(l, d) && Commits(l, d, ts, e)
    ensures forall i :: 0 <= i < |ts| ==> HasContent(l, ts[i])
    ensures Idle(l, e) && SameHomes(l, e, History(l, d, ts))
    decreases |ts|
  {
    if ts != [] {
      var t := ts[0];
      var ws := CommitWrites(l, d, t);
      CommitPrefix(l, d, t, |ws|);
      assert ws[..|ws|] == ws;
      var c := Apply(d, ws);
      if t.blocks == [] {
        assert After(l, d, t) == d;
      }
      assert Idle(l, c) && SameHomes(l, c, After(l, d, t));
      CommitsHistory(l, c, ts[1..], e);
      forall i | 0 <= i < |ts| ensures HasContent(l, ts[i]) {
        if i > 0 { assert HasContent(l, ts[1..][i - 1]); }
      }
      HistoryHomes(l, c, After(l, d, t), ts[1..]);
    }
  }

  /** What can happen to the log: a transaction commits, or the machine stops after k writes of
      its commit and, after recoveries that were themselves cut short, e is recovered. */
  datatype Event = Committed(t: Txn) | Crashed(t: Txn, k: nat, cuts: seq<nat>, e: map<Key, Block>)

  ghost predicate Happens(l: Layout, d: map<Key, Block>, ev: Event) {
    && l.Head() in d && GoodTxn(l, d, ev.t)
    && (ev.Crashed? ==>
          && ev.k <= |CommitWrites(l, d, ev.t)|
          && Interrupted(l, Apply(d, CommitWrites(l, d, ev.t)[..ev.k]), ev.cuts, ev.e)
          && Formatted(l, ev.e))
  }

  ghost function DiskAfter(l: Layout, d: map<Key, Block>, ev: Event): map<Key, Block>
    requires Happens(l, d, ev)
  {
    match ev
    case Committed(t) => Apply(d, CommitWrites(l, d, t))
    case Crashed(_, _, _, e) => Recover(l, e)
  }

  ghost predicate Lives(l: Layout, d: map<Key, Block>, evs: seq<Event>, e: map<Key, Block>)
    decreases |evs|
  {
    if evs == [] then e == d
    else Happens(l, d, evs[0]) && Lives(l, DiskAfter(l, d, evs[0]), evs[1..], e)
  }

  /** The transactions whose first header write reached the disk, in order. */
  function Survivors(evs: seq<Event>): seq<Txn> {
    if evs == [] then []
    else (if evs[0].Crashed? && evs[0].k <= |evs[0].t.blocks| then [] else [evs[0].t]) + Survivors(evs[1..])
  }

  lemma EventHomes(l: Layout, d: map<Key, Block>, ev: Event)
    requires Idle(l, d) && Happens(l, d, ev)
    ensures var e := DiskAfter(l, d, ev);
      Idle(l, e) && SameHomes(l, e, if ev.Crashed? && ev.k <= |ev.t.blocks| then d else After(l, d, ev.t))
  {
    match ev
    case Committed(t) =>
      assert Commits(l, d, [t], DiskAfter(l, d, ev));
      CommitsHistory(l, d, [t], DiskAfter(l, d, ev));
      assert [t][1..] == [] && History(l, d, [t]) == After(l, d, t);
    case Crashed(t, k, cuts, e) =>
      CrashAtomicity(l, d, t, k, cuts, e);
  }

  /** Durability, over any alternation of commits, crashes and interrupted recoveries: the home
      blocks are those of the transactions whose header write was made, all of them, in order,
      and of no other. */
  lemma {:induction false} Durability(l: Layout, d: map<Key, Block>, evs: seq<Event>, e: map<Key, Block>)
    requires Idle(l, d) && Lives(l, d, evs, e)
    ensures forall i :: 0 <= i < |Survivors(evs)| ==> HasContent(l, Survivors(evs)[i])
    ensures Idle(l, e) && SameHomes(l, e, History(l, d, Survivors(evs)))
    decreases |evs|
  {
    if evs != [] {
      var ev, c := evs[0], DiskAfter(l, d, evs[0]);
      EventHomes(l, d, ev);
      Durability(l, c, evs[1..], e);
      var rest := Survivors(evs[1..]);
      if ev.Crashed? && ev.k <= |ev.t.blocks| {
        assert Survivors(evs) == rest;
        HistoryHomes(l, c, d, rest);
      } else {
        assert Survivors(evs) == [ev.t] + rest && ([ev.t] + rest)[1..] == rest;
        HistoryHomes(l, c, After(l, d, ev.t), rest);
        forall i | 0 <= i < |Survivors(evs)| ensures HasContent(l, Survivors(evs)[i]) {
          if i > 0 { assert HasContent(l, rest[i - 1]); }
        }
      }
    }
  }
}
