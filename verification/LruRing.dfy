/** The circular doubly linked list of the buffer cache, threaded through two
    index arrays.  Cell `head` is the sentinel; `order` lists the linked cells from
    head.next onwards. */
module LruRing {

  /** The cell at a list position, the sentinel standing just outside both ends. */
  ghost function At(order: seq<nat>, head: nat, p: int): nat {
    if 0 <= p < |order| then order[p] else head
  }

  /** next and prev link head and the cells of order into one circle, in that order. */
  ghost predicate Ring(next: seq<nat>, prev: seq<nat>, head: nat, order: seq<nat>) {
    && |next| == |prev| == head + 1
    && (forall p :: 0 <= p < |order| ==> order[p] < head)
    && (forall p, q :: 0 <= p < q < |order| ==> order[p] != order[q])
    && (forall p :: -1 <= p < |order| ==> next[At(order, head, p)] == At(order, head, p + 1))
    && (forall p :: 0 <= p <= |order| ==> prev[At(order, head, p)] == At(order, head, p - 1))
  }

  /** pos is the inverse of order: the list holds every cell below head exactly once. */
  ghost predicate Covers(order: seq<nat>, pos: seq<nat>, head: nat) {
    && |order| == |pos| == head
    && (forall i :: 0 <= i < head ==> pos[i] < head && order[pos[i]] == i)
    && (forall p :: 0 <= p < head ==> order[p] < head && pos[order[p]] == p)
  }

  ghost function Without(order: seq<nat>, p: nat): seq<nat>
    requires p < |order|
  {
    order[..p] + order[p + 1..]
  }

  /** The inverse permutation after position p moves to the front. */
  ghost function Front(pos: seq<nat>, b: nat): seq<nat>
    requires b < |pos|
  {
    seq(|pos|, i requires 0 <= i < |pos| => if i == b then 0 else if pos[i] < pos[b] then pos[i] + 1 else pos[i])
  }

  lemma FrontCovers(order: seq<nat>, pos: seq<nat>, head: nat, b: nat)
    requires Covers(order, pos, head) && b < head
    ensures Covers([b] + Without(order, pos[b]), Front(pos, b), head)
  {
    var order' := [b] + Without(order, pos[b]);
    var pos' := Front(pos, b);
    forall i | 0 <= i < head
      ensures pos'[i] < head && order'[pos'[i]] == i
    {
      assert order[pos[i]] == i;
    }
    forall p | 0 <= p < head
      ensures order'[p] < head && pos'[order'[p]] == p
    {
      if p > 0 {
        var q := if p - 1 < pos[b] then p - 1 else p;
        assert order'[p] == order[q];
        assert pos[order[q]] == q;
      }
    }
  }

  /** Splicing cell b in right after the sentinel. */
  lemma RingInsert(next: seq<nat>, prev: seq<nat>, head: nat, order: seq<nat>, b: nat)
    requires Ring(next, prev, head, order) && b < head && b !in order
    ensures next[head] <= head
    ensures var next1 := next[b := next[head]];
            var prev1 := prev[b := head];
            var prev2 := prev1[next1[head] := b];
            Ring(next1[head := b], prev2, head, [b] + order)
  {
    assert At(order, head, -1) == head && next[head] == At(order, head, 0);
    var next1 := next[b := next[head]];
    var prev1 := prev[b := head];
    var prev2 := prev1[next1[head] := b];
    var next2 := next1[head := b];
    var order' := [b] + order;
    forall p | -1 <= p < |order'|
      ensures next2[At(order', head, p)] == At(order', head, p + 1)
    {
      if p > 0 {
        assert next[At(order, head, p - 1)] == At(order, head, p);
      }
    }
    forall p | 0 <= p <= |order'|
      ensures prev2[At(order', head, p)] == At(order', head, p - 1)
    {
      if p > 0 {
        assert prev[At(order, head, p - 1)] == At(order, head, p - 2);
      }
    }
  }

  /** Unlinking the cell at position p. */
  lemma RingUnlink(next: seq<nat>, prev: seq<nat>, head: nat, order: seq<nat>, p: nat)
    requires Ring(next, prev, head, order) && p < |order|
    ensures next[order[p]] <= head && prev[order[p]] <= head
    ensures var b := order[p];
            Ring(next[prev[b] := next[b]], prev[next[b] := prev[b]], head, Without(order, p))
    ensures order[p] !in Without(order, p)
  {
    var b := order[p];
    var order' := Without(order, p);
    assert next[At(order, head, p)] == At(order, head, p + 1);
    assert prev[At(order, head, p)] == At(order, head, p - 1);
    var next' := next[prev[b] := next[b]];
    var prev' := prev[next[b] := prev[b]];
    forall q | -1 <= q < |order'|
      ensures next'[At(order', head, q)] == At(order', head, q + 1)
    {
      var r := if q < p then q else q + 1;
      assert next[At(order, head, r)] == At(order, head, r + 1);
    }
    forall q | 0 <= q <= |order'|
      ensures prev'[At(order', head, q)] == At(order', head, q - 1)
    {
      var r := if q < p then q else q + 1;
      assert prev[At(order, head, r)] == At(order, head, r - 1);
    }
  }

  /** The six pointer writes of brelse: cell b leaves its place and becomes head.next. */
  function Relink(next: seq<nat>, prev: seq<nat>, head: nat, b: nat): (r: (seq<nat>, seq<nat>))
    requires |next| == |prev| == head + 1 && b < head
    requires forall i :: 0 <= i <= head ==> next[i] <= head && prev[i] <= head
  {
    var prev1 := prev[next[b] := prev[b]];
    var next1 := next[prev[b] := next[b]];
    var next2 := next1[b := next1[head]];
    var prev2 := prev1[b := head];
    (next2[head := b], prev2[next2[head] := b])
  }

  /** Every link of a full ring points at a cell of the ring. */
  lemma LinksInRange(next: seq<nat>, prev: seq<nat>, head: nat, order: seq<nat>, pos: seq<nat>)
    requires Ring(next, prev, head, order) && Covers(order, pos, head)
    ensures |next| == |prev| == head + 1 && |order| == |pos| == head
    ensures forall i :: 0 <= i < head ==> pos[i] < head
    ensures forall i :: 0 <= i <= head ==> next[i] <= head && prev[i] <= head
  {
    forall i | 0 <= i <= head
      ensures next[i] <= head && prev[i] <= head
    {
      var p := if i < head then pos[i] else -1;
      assert At(order, head, p) == i && next[At(order, head, p)] == At(order, head, p + 1);
      var q := if i < head then pos[i] else |order|;
      assert At(order, head, q) == i && prev[At(order, head, q)] == At(order, head, q - 1);
    }
  }

  /** The ring stays a circle through the same cells, with b now in front. */
  lemma RelinkRing(next: seq<nat>, prev: seq<nat>, head: nat, order: seq<nat>, pos: seq<nat>, b: nat)
    requires Ring(next, prev, head, order) && Covers(order, pos, head) && b < head
    requires forall i :: 0 <= i <= head ==> next[i] <= head && prev[i] <= head
    ensures var r := Relink(next, prev, head, b);
            var order' := [b] + Without(order, pos[b]);
            Ring(r.0, r.1, head, order') && Covers(order', Front(pos, b), head)
  {
    FrontCovers(order, pos, head, b);
    RingUnlink(next, prev, head, order, pos[b]);
    RingInsert(next[prev[b] := next[b]], prev[next[b] := prev[b]], head, Without(order, pos[b]), b);
  }
}
