/** pipe.c.  Each method is what one process does while it holds the pipe's lock: from
    acquiring it, or regaining it after a sleep, to the next sleep or return.  Any sequence
    of calls is an interleaving of readers and writers. */
module Pipe {
  import opened Params

  const PIPESIZE := 512

  /** How a held section ends: the call returns, returns -1, or sleeps having moved i bytes. */
  datatype Outcome = Returned(n: nat) | Failed | Slept(i: nat)

  /** 512 divides 2^32, so wrapped counters index the ring like unwrapped ones. */
  lemma WrapIndex(n: nat)
    ensures n % UINT_LIMIT % PIPESIZE == n % PIPESIZE
  {
    var q := n / UINT_LIMIT;
    assert n == q * UINT_LIMIT + n % UINT_LIMIT;
    assert n == PIPESIZE * (q * 0x80_0000) + n % UINT_LIMIT;
    ModAdd(n % UINT_LIMIT, q * 0x80_0000);
  }

  lemma WrapNext(n: nat)
    ensures (n % UINT_LIMIT + 1) % UINT_LIMIT == (n + 1) % UINT_LIMIT
  {
  }

  lemma {:induction false} ModAdd(a: nat, k: nat)
    ensures (PIPESIZE * k + a) % PIPESIZE == a % PIPESIZE
  {
    if k > 0 {
      ModAdd(a, k - 1);
      assert PIPESIZE * k + a == PIPESIZE * (k - 1) + a + PIPESIZE;
    }
  }

  /** The two tests on wrapped counters tell empty and full apart exactly. */
  lemma WrapTests(r: nat, w: nat)
    requires r <= w <= r + PIPESIZE
    ensures r % UINT_LIMIT == w % UINT_LIMIT <==> r == w
    ensures w % UINT_LIMIT == (r % UINT_LIMIT + PIPESIZE) % UINT_LIMIT <==> w == r + PIPESIZE
  {
    var d := w - r;
    var a := r % UINT_LIMIT;
    assert w % UINT_LIMIT == (a + d) % UINT_LIMIT;
  }

  /** Two positions less than a ring apart use different cells. */
  lemma Cells(k: nat, w: nat)
    requires k < w < k + PIPESIZE
    ensures k % PIPESIZE != w % PIPESIZE
  {
  }

  // The pipe as values

  /** Everything written and how much of it has been taken; who sleeps at either end. */
  datatype Pipe = Pipe(written: seq<Byte>, taken: nat, readopen: bool, writeopen: bool, readers: set<nat>,
                       writers: set<nat>)

  ghost predicate Fits(s: Pipe) {
    s.taken <= |s.written| <= s.taken + PIPESIZE
  }

  /** pipewrite by process p with these bytes left to write. */
  function Wrote(s: Pipe, p: nat, bytes: seq<Byte>, killed: bool): Pipe
    requires Fits(s)
  {
    var room := s.taken + PIPESIZE - |s.written|;
    if |bytes| <= room then s.(written := s.written + bytes, readers := {})
    else
      var full := s.(written := s.written + bytes[..room]);
      if !s.readopen || killed then full else full.(readers := {}, writers := s.writers + {p})
  }

  function Least(a: nat, b: nat): nat {
    if a < b then a else b
  }

  predicate Waits(s: Pipe) {
    s.taken == |s.written| && s.writeopen
  }

  /** The bytes piperead returns. */
  function Delivered(s: Pipe, n: nat): seq<Byte>
    requires Fits(s)
  {
    if Waits(s) then [] else s.written[s.taken..if s.taken + n < |s.written| then s.taken + n else |s.written|]
  }

  function ReadBy(s: Pipe, p: nat, n: nat, killed: bool): Pipe
    requires Fits(s)
  {
    if Waits(s) then (if killed then s else s.(readers := s.readers + {p}))
    else s.(taken := s.taken + |Delivered(s, n)|, writers := {})
  }

  function Closed(s: Pipe, writable: bool): Pipe {
    if writable then s.(writeopen := false, readers := {}) else s.(readopen := false, writers := {})
  }

  class Ring {
    const data: array<Byte>
    var nread: nat
    var nwrite: nat
    var readopen: bool
    var writeopen: bool
    ghost var written: seq<Byte>
    ghost var taken: nat
    var readers: set<nat>
    var writers: set<nat>

    /** The bytes in the pipe are the written ones not yet taken, in order. */
    ghost predicate Valid()
      reads this, data
    {
      && data.Length == PIPESIZE
      && taken <= |written| <= taken + PIPESIZE
      && nread == taken % UINT_LIMIT && nwrite == |written| % UINT_LIMIT
      && (forall k :: taken <= k < |written| ==> data[k % PIPESIZE] == written[k])
    }

    ghost function Abs(): Pipe
      reads this
    {
      Pipe(written, taken, readopen, writeopen, readers, writers)
    }

    constructor ()
      ensures Valid() && written == [] && taken == 0 && readopen && writeopen && readers == {} && writers == {}
      ensures fresh(data)
    {
      data := new Byte[PIPESIZE];
      nread, nwrite, readopen, writeopen := 0, 0, true, true;
      written, taken, readers, writers := [], 0, {}, {};
    }

    /** Store one byte: data[nwrite++ % PIPESIZE]. */
    method Put(b: Byte)
      requires Valid() && |written| < taken + PIPESIZE
      modifies this`nwrite, this`written, data
      ensures Valid() && written == old(written) + [b]
    {
      WrapIndex(|written|);
      WrapNext(|written|);
      forall k | taken <= k < |written| ensures k % PIPESIZE != |written| % PIPESIZE { Cells(k, |written|); }
      data[nwrite % PIPESIZE] := b;
      nwrite := (nwrite + 1) % UINT_LIMIT;
      written := written + [b];
    }

    method Get() returns (b: Byte)
      requires Valid() && taken < |written|
      modifies this`nread, this`taken
      ensures Valid() && taken == old(taken) + 1 && b == written[old(taken)]
    {
      WrapIndex(taken);
      WrapNext(taken);
      assert data[taken % PIPESIZE] == written[taken];
      b := data[nread % PIPESIZE];
      nread := (nread + 1) % UINT_LIMIT;
      taken := taken + 1;
    }

    /** pipewrite from byte start on: stops at the last byte, or at a full pipe to sleep, or
        at a full pipe with -1 if the reader is gone or the writer killed. */
    method Write(p: nat, addr: seq<Byte>, start: nat, killed: bool) returns (r: Outcome)
      requires Valid() && start <= |addr|
      modifies this`nwrite, this`written, this`readers, this`writers, data
      ensures Valid() && Abs() == Wrote(old(Abs()), p, addr[start..], killed)
      ensures r.Returned? <==> |written| == |old(written)| + (|addr| - start)
      ensures r.Returned? ==> r.n == |addr|
      ensures !r.Returned? ==> |written| == taken + PIPESIZE && (r.Failed? <==> !readopen || killed)
      ensures r.Slept? ==> r.i == start + (|written| - |old(written)|)
      ensures |old(written)| <= |written| <= |old(written)| + (|addr| - start)
      ensures written == old(written) + addr[start..start + (|written| - |old(written)|)] && taken == old(taken)
      ensures r.Slept? ==> readers == {} && writers == old(writers) + {p}
      ensures r.Returned? ==> readers == {} && writers == old(writers)
    {
      var i := start;
      while i < |addr|
        invariant start <= i <= |addr| && Valid() && readers == old(readers) && writers == old(writers)
        invariant written == old(written) + addr[start..i]
        invariant i - start <= old(taken + PIPESIZE - |written|)
      {
        assert addr[start..][..i - start] == addr[start..i];
        WrapTests(taken, |written|);
        if nwrite == (nread + PIPESIZE) % UINT_LIMIT {
          if !readopen || killed {
            return Failed;
          }
          readers := {};
          writers := writers + {p};
          return Slept(i);
        }
        Put(addr[i]);
        i := i + 1;
      }
      assert addr[start..|addr|] == addr[start..];
      readers := {};
      return Returned(|addr|);
    }

    /** piperead: the next bytes in the order they were written, or a sleep, or -1. */
    method Read(p: nat, n: nat, killed: bool) returns (r: Outcome, dst: seq<Byte>)
      requires Valid()
      modifies this`nread, this`taken, this`readers, this`writers
      ensures Valid() && dst == Delivered(old(Abs()), n) && Abs() == ReadBy(old(Abs()), p, n, killed)
      ensures r.Returned? <==> !Waits(old(Abs()))
      ensures r.Returned? ==> r.n == |dst|
      ensures !r.Returned? ==> (r.Failed? <==> killed)
      ensures r.Returned? <==> old(taken) < |old(written)| || !old(writeopen)
      ensures taken == old(taken) + |dst| <= |written| && dst == written[old(taken)..taken]
      ensures |dst| == if r.Returned? then Least(n, |written| - old(taken)) else 0
      ensures r.Slept? ==> readers == old(readers) + {p} && writers == old(writers)
      ensures r.Returned? ==> writers == {} && readers == old(readers)
    {
      dst := [];
      WrapTests(taken, |written|);
      if nread == nwrite && writeopen {
        if killed {
          return Failed, dst;
        }
        readers := readers + {p};
        return Slept(0), dst;
      }
      var i := 0;
      while i < n && nread != nwrite
        invariant 0 <= i <= n && Valid() && i == |dst| && taken == old(taken) + i && dst == written[old(taken)..taken]
        invariant readers == old(readers) && writers == old(writers)
      {
        var b := Get();
        dst := dst + [b];
        i := i + 1;
      }
      WrapTests(taken, |written|);
      writers := {};
      return Returned(i), dst;
    }

    /** pipeclose of an end on which no call is in progress. */
    method Close(writable: bool)
      requires Valid() && (if writable then writers == {} else readers == {})
      modifies this`readopen, this`writeopen, this`readers, this`writers
      ensures Valid() && Abs() == Closed(old(Abs()), writable)
      ensures if writable then !writeopen && readopen == old(readopen) && readers == {}
              else !readopen && writeopen == old(writeopen) && writers == {}
    {
      if writable {
        writeopen := false;
        readers := {};
      } else {
        readopen := false;
        writers := {};
      }
    }
  }

  // Runs

  datatype Step =
    | Write(p: nat, bytes: seq<Byte>, killed: bool)
    | Read(p: nat, n: nat, killed: bool)
    | Close(writable: bool)
    | Kill(p: nat)

  /** Calls come through open ends, and an end closes only when no call is in progress on it. */
  predicate Enabled(s: Pipe, step: Step) {
    match step
    case Write(_, _, _) => s.writeopen
    case Read(_, _, _) => s.readopen
    case Close(writable) => if writable then s.writers == {} else s.readers == {}
    case Kill(_) => true
  }

  function Next(s: Pipe, step: Step): Pipe
    requires Fits(s)
  {
    match step
    case Write(p, bytes, killed) => Wrote(s, p, bytes, killed)
    case Read(p, n, killed) => ReadBy(s, p, n, killed)
    case Close(writable) => Closed(s, writable)
    case Kill(p) => s.(readers := s.readers - {p}, writers := s.writers - {p})
  }

  function Output(s: Pipe, step: Step): seq<Byte>
    requires Fits(s)
  {
    if step.Read? then Delivered(s, step.n) else []
  }

  lemma NextFits(s: Pipe, step: Step)
    requires Fits(s)
    ensures Fits(Next(s, step)) && s.written <= Next(s, step).written && s.taken <= Next(s, step).taken
    ensures Next(s, step).written[s.taken..Next(s, step).taken] == Output(s, step)
  {
  }

  /** The run ends in t and out is all that its reads returned, in order. */
  ghost predicate Run(s: Pipe, steps: seq<Step>, t: Pipe, out: seq<Byte>)
    requires Fits(s)
    decreases |steps|
  {
    if steps == [] then t == s && out == []
    else
      var step := steps[0];
      NextFits(s, step);
      && Enabled(s, step) && Output(s, step) <= out
      && Run(Next(s, step), steps[1..], t, out[|Output(s, step)|..])
  }

  /** First in, first out: over any interleaving the bytes read are exactly the bytes
      written, in order and without gaps, and never more than PIPESIZE are in between. */
  lemma {:induction false} Fifo(s: Pipe, steps: seq<Step>, t: Pipe, out: seq<Byte>)
    requires Fits(s) && Run(s, steps, t, out)
    ensures Fits(t) && s.written <= t.written && s.taken <= t.taken
    ensures out == t.written[s.taken..t.taken]
    decreases |steps|
  {
    if steps != [] {
      var step := steps[0];
      var m := Next(s, step);
      NextFits(s, step);
      Fifo(m, steps[1..], t, out[|Output(s, step)|..]);
      assert m.written[s.taken..m.taken] == t.written[s.taken..m.taken];
      assert t.written[s.taken..t.taken] == t.written[s.taken..m.taken] + t.written[m.taken..t.taken];
    }
  }

  /** What a step puts into the pipe: as many bytes of a write as there is room for. */
  function Input(s: Pipe, step: Step): seq<Byte>
    requires Fits(s)
  {
    if step.Write? then step.bytes[..Least(|step.bytes|, PIPESIZE - (|s.written| - s.taken))] else []
  }

  lemma NextWritten(s: Pipe, step: Step)
    requires Fits(s)
    ensures Next(s, step).written == s.written + Input(s, step)
    ensures step.Read? ==>
      |Output(s, step)| == if |s.written| == s.taken && s.writeopen then 0 else Least(step.n, |s.written| - s.taken)
  {
  }

  /** All that the writes of the run put into the pipe. */
  ghost function Inputs(s: Pipe, steps: seq<Step>): seq<Byte>
    requires Fits(s)
    decreases |steps|
  {
    if steps == [] then []
    else NextFits(s, steps[0]); Input(s, steps[0]) + Inputs(Next(s, steps[0]), steps[1..])
  }

  /** The bytes read from a pipe are those passed to its writes, in order; what was accepted and
      not yet read is what the pipe holds. */
  lemma ReadsAreWrites(s: Pipe, steps: seq<Step>, t: Pipe, out: seq<Byte>)
    requires Fits(s) && Run(s, steps, t, out)
    ensures Fits(t) && s.written[s.taken..] + Inputs(s, steps) == out + t.written[t.taken..]
  {
    Fifo(s, steps, t, out);
    WrittenInputs(s, steps, t, out);
    assert t.written[s.taken..] == s.written[s.taken..] + Inputs(s, steps);
    assert t.written[s.taken..] == t.written[s.taken..t.taken] + t.written[t.taken..];
  }

  lemma {:induction false} WrittenInputs(s: Pipe, steps: seq<Step>, t: Pipe, out: seq<Byte>)
    requires Fits(s) && Run(s, steps, t, out)
    ensures t.written == s.written + Inputs(s, steps)
    decreases |steps|
  {
    if steps != [] {
      NextFits(s, steps[0]);
      NextWritten(s, steps[0]);
      WrittenInputs(Next(s, steps[0]), steps[1..], t, out[|Output(s, steps[0])|..]);
    }
  }

  // Sleepers

  /** A reader sleeps only on an empty pipe that can still be written, a writer only on a
      full pipe that can still be read, and both through open ends. */
  ghost predicate Calm(s: Pipe) {
    && (s.readers != {} ==> s.taken == |s.written| && s.writeopen && s.readopen)
    && (s.writers != {} ==> |s.written| == s.taken + PIPESIZE && s.readopen && s.writeopen)
  }

  /** The one way to strand a sleeper: a killed writer fills an empty pipe in front of a
      sleeping reader and leaves without waking it. */
  predicate Strands(s: Pipe, step: Step) {
    step.Write? && step.killed && s.readers != {} && |step.bytes| > PIPESIZE
  }

  /** A step keeps every sleeper justified exactly when it is not such a write. */
  lemma CalmIff(s: Pipe, step: Step)
    requires Fits(s) && Calm(s) && Enabled(s, step)
    ensures Calm(Next(s, step)) <==> !Strands(s, step)
  {
  }

  ghost predicate KillFree(steps: seq<Step>) {
    forall i :: 0 <= i < |steps| ==> !(steps[i].Write? && steps[i].killed)
  }

  lemma {:induction false} CalmRun(s: Pipe, steps: seq<Step>, t: Pipe, out: seq<Byte>)
    requires Fits(s) && Calm(s) && Run(s, steps, t, out) && KillFree(steps)
    ensures Calm(t)
    decreases |steps|
  {
    if steps != [] {
      NextFits(s, steps[0]);
      CalmIff(s, steps[0]);
      CalmRun(Next(s, steps[0]), steps[1..], t, out[|Output(s, steps[0])|..]);
    }
  }

  /** From a new pipe such a write can happen. */
  lemma KilledWriterStrandsReader(bytes: seq<Byte>)
    requires |bytes| > PIPESIZE
    ensures var s0 := Pipe([], 0, true, true, {}, {});
            var s1 := Next(s0, Read(1, 1, false));
            var s2 := Next(s1, Write(2, bytes, true));
      && Enabled(s0, Read(1, 1, false)) && Enabled(s1, Write(2, bytes, true))
      && s2.readers == {1} && |s2.written| - s2.taken == PIPESIZE && !Calm(s2)
  {
  }
}
