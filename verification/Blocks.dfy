/** The block allocator on the value of its bitmap, and every run of it. */
module Blocks {

  datatype Option<+T> = None | Some(value: T)

  /** used[i] says that block i is in use. */
  type Usage = seq<bool>

  /** n free blocks from start on. */
  ghost predicate FreeRun(used: Usage, start: nat, n: nat)
  {
    start + n <= |used| && forall i :: start <= i < start + n ==> !used[i]
  }

  ghost predicate IsFirstFit(used: Usage, n: nat, start: nat)
  {
    FreeRun(used, start, n) && forall s: nat :: s < start ==> !FreeRun(used, s, n)
  }

  /** The lowest run of n free blocks. No run serves a request for nothing. */
  ghost function FirstFit(used: Usage, n: nat): (r: Option<nat>)
    ensures r.Some? ==> n > 0 && IsFirstFit(used, n, r.value)
    ensures r.None? ==> n == 0 || forall s: nat :: !FreeRun(used, s, n)
  {
    if n == 0 || forall s: nat :: !FreeRun(used, s, n) then None
    else
      LeastRunExists(used, n);
      var start: nat :| IsFirstFit(used, n, start);
      Some(start)
  }

  lemma LeastRunExists(used: Usage, n: nat)
    requires exists s: nat :: FreeRun(used, s, n)
    ensures exists s: nat :: IsFirstFit(used, n, s)
  {
    var s: nat :| FreeRun(used, s, n);
    LeastRunUpTo(used, n, s);
  }

  lemma {:induction false} LeastRunUpTo(used: Usage, n: nat, s: nat)
    requires FreeRun(used, s, n)
    ensures exists t: nat :: IsFirstFit(used, n, t)
  {
    if t: nat :| t < s && FreeRun(used, t, n) {
      LeastRunUpTo(used, n, t);
    } else {
      assert IsFirstFit(used, n, s);
    }
  }

  lemma FirstFitIs(used: Usage, n: nat, start: nat)
    requires n > 0 && IsFirstFit(used, n, start)
    ensures FirstFit(used, n) == Some(start)
  {
    assert FreeRun(used, start, n);
    var t := FirstFit(used, n).value;
    assert FreeRun(used, t, n);
  }

  /** The n blocks from start on marked as used or free. */
  function Mark(used: Usage, start: nat, n: nat, v: bool): (r: Usage)
    ensures |r| == |used|
    ensures forall i :: 0 <= i < |used| ==> r[i] == if start <= i < start + n then v else used[i]
  {
    seq(|used|, i requires 0 <= i < |used| => if start <= i < start + n then v else used[i])
  }

  /** Freeing what was just allocated restores the bitmap. */
  lemma FreeUndoesAlloc(used: Usage, n: nat)
    requires FirstFit(used, n).Some?
    ensures var start := FirstFit(used, n).value;
      Mark(Mark(used, start, n, true), start, n, false) == used
  {
  }

  // ----- Counting -----

  function CountUsed(used: Usage, n: nat): (c: nat)
    requires n <= |used|
    ensures c <= n
  {
    if n == 0 then 0 else CountUsed(used, n - 1) + (if used[n - 1] then 1 else 0)
  }

  /** Marking a free run raises the number of used blocks by its size. */
  lemma {:induction false} CountMark(used: Usage, start: nat, n: nat, k: nat)
    requires FreeRun(used, start, n) && k <= |used|
    ensures CountUsed(Mark(used, start, n, true), k) ==
            CountUsed(used, k) + (if k <= start then 0 else if k < start + n then k - start else n)
  {
    if k > 0 {
      CountMark(used, start, n, k - 1);
    }
  }

  /** Some block is free exactly if not all are counted. */
  lemma {:induction false} SomeFree(used: Usage, n: nat)
    requires n <= |used|
    ensures CountUsed(used, n) < n <==> exists i :: 0 <= i < n && !used[i]
  {
    if n > 0 {
      SomeFree(used, n - 1);
    }
  }

  /** A single block can be allocated exactly if not all are used. */
  lemma OneBlock(used: Usage)
    ensures FirstFit(used, 1).Some? <==> CountUsed(used, |used|) < |used|
    ensures FirstFit(used, 1).Some? ==>
              var f := FirstFit(used, 1).value;
              f < |used| && !used[f] &&
              CountUsed(Mark(used, f, 1, true), |used|) == CountUsed(used, |used|) + 1
  {
    SomeFree(used, |used|);
    if i :| 0 <= i < |used| && !used[i] {
      assert FreeRun(used, i, 1);
    }
    if FirstFit(used, 1).Some? {
      CountMark(used, FirstFit(used, 1).value, 1, |used|);
    }
  }

  // ----- Runs -----

  datatype Extent = Extent(start: nat, n: nat)

  predicate Covers(e: Extent, i: nat)
  {
    e.start <= i < e.start + e.n
  }

  /** The bitmap, and the allocations that were not freed. */
  datatype Heap = Heap(used: Usage, live: set<Extent>)

  /** Allocate n blocks, or free a live allocation. */
  datatype Op = Alloc(n: nat) | Free(e: Extent)

  ghost predicate Permitted(h: Heap, op: Op)
  {
    op.Free? ==> op.e in h.live
  }

  ghost function Step(h: Heap, op: Op): Heap
  {
    match op
    case Alloc(n) =>
      var r := FirstFit(h.used, n);
      if r.None? then h else Heap(Mark(h.used, r.value, n, true), h.live + {Extent(r.value, n)})
    case Free(e) => Heap(Mark(h.used, e.start, e.n, false), h.live - {e})
  }

  ghost predicate PermittedAll(h: Heap, ops: seq<Op>)
    decreases |ops|
  {
    |ops| > 0 ==> Permitted(h, ops[0]) && PermittedAll(Step(h, ops[0]), ops[1..])
  }

  ghost function Run(h: Heap, ops: seq<Op>): Heap
    decreases |ops|
  {
    if |ops| == 0 then h else Run(Step(h, ops[0]), ops[1..])
  }

  /** Nothing is allocated twice, and nothing that was in use at the start. */
  ghost predicate Safe(start: Usage, h: Heap)
  {
    && |h.used| == |start|
    && (forall e :: e in h.live ==> FreeRun(start, e.start, e.n) && e.n > 0)
    && (forall e, f, i: nat :: e in h.live && f in h.live && Covers(e, i) && Covers(f, i) ==> e == f)
  }

  /** The bitmap is exact: a block is marked if it was at the start or a live allocation covers it. */
  ghost predicate Exact(start: Usage, h: Heap)
  {
    |h.used| == |start| &&
    forall i: nat :: i < |start| ==> (h.used[i] <==> start[i] || exists e :: e in h.live && Covers(e, i))
  }

  lemma AllocKeeps(start: Usage, h: Heap, n: nat)
    requires Safe(start, h) && Exact(start, h)
    ensures Safe(start, Step(h, Alloc(n))) && Exact(start, Step(h, Alloc(n)))
  {
    var r := FirstFit(h.used, n);
    if r.Some? {
      var new_ := Extent(r.value, n);
      var h' := Step(h, Alloc(n));
      forall i: nat | Covers(new_, i)
        ensures !start[i] && forall e :: e in h.live ==> !Covers(e, i)
      {
        assert !h.used[i];
      }
      forall i: nat | i < |start|
        ensures h'.used[i] <==> start[i] || exists e :: e in h'.live && Covers(e, i)
      {
        if Covers(new_, i) {
          assert new_ in h'.live;
        } else if e :| e in h.live && Covers(e, i) {
          assert e in h'.live;
        }
      }
    }
  }

  lemma FreeKeeps(start: Usage, h: Heap, e: Extent)
    requires Safe(start, h) && Exact(start, h) && e in h.live
    ensures Safe(start, Step(h, Free(e))) && Exact(start, Step(h, Free(e)))
  {
    var h' := Step(h, Free(e));
    forall i: nat | i < |start|
      ensures h'.used[i] <==> start[i] || exists f :: f in h'.live && Covers(f, i)
    {
      if Covers(e, i) {
        assert !start[i];
      } else if f :| f in h.live && Covers(f, i) {
        assert f in h'.live;
      }
    }
  }

  /** Over every run, live allocations are disjoint and the bitmap marks exactly them and
      what was marked at the start. */
  lemma {:induction false} RunsAreSafe(start: Usage, h: Heap, ops: seq<Op>)
    requires Safe(start, h) && Exact(start, h) && PermittedAll(h, ops)
    ensures Safe(start, Run(h, ops)) && Exact(start, Run(h, ops))
    decreases |ops|
  {
    if |ops| > 0 {
      StepKeeps(start, h, ops[0]);
      RunsAreSafe(start, Step(h, ops[0]), ops[1..]);
    }
  }

  lemma StepKeeps(start: Usage, h: Heap, op: Op)
    requires Safe(start, h) && Exact(start, h) && Permitted(h, op)
    ensures Safe(start, Step(h, op)) && Exact(start, Step(h, op))
  {
    match op
    case Alloc(n) => AllocKeeps(start, h, n);
    case Free(e) => FreeKeeps(start, h, e);
  }

  /** The same from a fresh bitmap, for each block of a live allocation. */
  lemma FreshRunsAreSafe(start: Usage, ops: seq<Op>, e: Extent, i: nat)
    requires PermittedAll(Heap(start, {}), ops)
    requires e in Run(Heap(start, {}), ops).live && Covers(e, i)
    ensures var h := Run(Heap(start, {}), ops);
      && i < |start| == |h.used| && !start[i] && h.used[i]
      && forall f :: f in h.live && Covers(f, i) ==> f == e
  {
    RunsAreSafe(start, Heap(start, {}), ops);
  }

  // ----- Conservation -----

  /** Blocks that an operation takes, or gives back if negative. */
  ghost function Taken(h: Heap, op: Op): int
  {
    match op
    case Alloc(n) => if FirstFit(h.used, n).Some? then n else 0
    case Free(e) => -(e.n as int)
  }

  ghost function Balance(h: Heap, ops: seq<Op>): int
    decreases |ops|
  {
    if |ops| == 0 then 0 else Taken(h, ops[0]) + Balance(Step(h, ops[0]), ops[1..])
  }

  lemma StepCount(start: Usage, h: Heap, op: Op)
    requires Safe(start, h) && Exact(start, h) && Permitted(h, op)
    ensures CountUsed(Step(h, op).used, |start|) == CountUsed(h.used, |start|) + Taken(h, op)
  {
    match op
    case Alloc(n) =>
      var r := FirstFit(h.used, n);
      if r.Some? {
        CountMark(h.used, r.value, n, |start|);
      }
    case Free(e) =>
      var freed := Mark(h.used, e.start, e.n, false);
      assert FreeRun(start, e.start, e.n);
      forall i: nat | Covers(e, i)
        ensures h.used[i]
      {
      }
      assert Mark(freed, e.start, e.n, true) == h.used;
      CountMark(freed, e.start, e.n, |start|);
  }

  /** Over every run the number of used blocks changes by what was taken less what was given back. */
  lemma {:induction false} BlocksConserved(start: Usage, h: Heap, ops: seq<Op>)
    requires Safe(start, h) && Exact(start, h) && PermittedAll(h, ops)
    ensures |Run(h, ops).used| == |start|
    ensures CountUsed(Run(h, ops).used, |start|) == CountUsed(h.used, |start|) + Balance(h, ops)
    decreases |ops|
  {
    if |ops| > 0 {
      StepKeeps(start, h, ops[0]);
      StepCount(start, h, ops[0]);
      BlocksConserved(start, Step(h, ops[0]), ops[1..]);
    }
  }
}
