/**
 * Runs of `malloc` and `free` (libc/arch/i686/malloc.c) on top of the memory manager
 * (kernel/arch/i686/mem.c), while the rest of the kernel uses the memory manager too.
 */
module HeapRuns {
  import opened Blocks
  import opened Heap
  import opened Machine
  import Paging

  /** A heap call, or whatever the rest of the kernel does to memory between heap calls. */
  datatype Step = Call(op: Op) | Elsewhere(after: Paging.State)

  datatype System = System(trace: Trace, memory: Paging.State)

  /** The rest of the kernel may take frames and map pages, but leaves the heap region alone. */
  ghost predicate HeapUntouched(s: Paging.State, t: Paging.State)
    requires s.Valid() && t.Valid()
  {
    && t.lo == s.lo && t.hi == s.hi && s.used <= t.used
    && forall q :: FIRST_PAGE <= q < PAGE_MAX ==> t.tables[q] == s.tables[q] && t.dir[q / 1024] == s.dir[q / 1024]
  }

  /** The page behind the heap. */
  function EndPage(bs: seq<Block>): nat {
    End(bs) / 4096
  }

  /** Callers follow the rules of `malloc` and `free`, and there are frames and addresses for growth. */
  ghost predicate Possible(s: System, step: Step)
    requires s.memory.Valid()
  {
    match step
    case Call(op) =>
      && Legal(s.trace.bs, op)
      && (op.Alloc? && NeedsGrowth(s.trace.bs, op.size)
          ==> CanGrow(s.memory, EndPage(s.trace.bs), PagesFor(RoundUp(op.size))))
    case Elsewhere(t) => t.Valid() && HeapUntouched(s.memory, t)
  }

  ghost function After(s: System, step: Step): (r: System)
    requires s.memory.Valid() && Possible(s, step)
    ensures r.memory.Valid()
  {
    match step
    case Elsewhere(t) => System(s.trace, t)
    case Call(op) =>
      var grown :=
        if op.Alloc? && NeedsGrowth(s.trace.bs, op.size) then
          match GrowCall(s.memory, EndPage(s.trace.bs), PagesFor(RoundUp(op.size)))
          case None => s.memory
          case Some(result) => result.0
        else s.memory;
      System(Next(s.trace, op), grown)
  }

  ghost predicate PossibleRun(start: Paging.State, steps: seq<Step>)
    requires start.Valid()
    decreases |steps|, 0
  {
    steps == [] ||
    (PossibleRun(start, steps[..|steps| - 1]) && Possible(Run(start, steps[..|steps| - 1]), steps[|steps| - 1]))
  }

  /** A run from the empty heap. */
  ghost function Run(start: Paging.State, steps: seq<Step>): (r: System)
    requires start.Valid() && PossibleRun(start, steps)
    ensures r.memory.Valid()
    decreases |steps|, 1
  {
    if steps == [] then System(Trace([], {}, 0), start)
    else After(Run(start, steps[..|steps| - 1]), steps[|steps| - 1])
  }

  /** The frames of the heap and of its page tables were free at the start. */
  ghost predicate OwnFrames(start: Paging.State, s: Paging.State, e: nat)
    requires start.Valid() && s.Valid() && e <= PAGE_MAX
  {
    && s.lo == start.lo && s.hi == start.hi && start.used <= s.used
    && (forall q :: FIRST_PAGE <= q < e ==> s.FrameOf(q) in start.Free())
    && (forall q :: FIRST_PAGE <= q < PAGE_MAX && s.HasTable(q) ==> s.TableFrame(q) in start.Free())
  }

  ghost predicate SystemInvariant(start: Paging.State, s: System)
    requires start.Valid() && s.memory.Valid()
  {
    && HeapInvariant(s.trace)
    && EndPage(s.trace.bs) == FIRST_PAGE + s.trace.pages
    && Backed(s.memory, EndPage(s.trace.bs))
    && OwnFrames(start, s.memory, EndPage(s.trace.bs))
  }

  lemma GrowthTakesOwnFrames(start: Paging.State, s: Paging.State, t: Paging.State, e: nat, n: nat)
    requires start.Valid() && s.Valid() && t.Valid() && FIRST_PAGE <= e && e + n <= PAGE_MAX
    requires Backed(s, e) && OwnFrames(start, s, e) && Paging.Allocated(s, t, e, n)
    ensures OwnFrames(start, t, e + n)
  {
    assert s.Free() <= start.Free();
    forall q | FIRST_PAGE <= q < PAGE_MAX && t.HasTable(q) ensures t.TableFrame(q) in start.Free() {
      assert s.HasTable(q) || Paging.InNewTable(s, t, q);
    }
    forall q | FIRST_PAGE <= q < e + n ensures t.FrameOf(q) in start.Free() {
      assert q < e ==> s.Mapped(q) && t.tables[q] == s.tables[q];
    }
  }

  lemma ElsewhereKeepsTheHeap(start: Paging.State, s: Paging.State, t: Paging.State, e: nat)
    requires start.Valid() && s.Valid() && t.Valid()
    requires Backed(s, e) && OwnFrames(start, s, e) && HeapUntouched(s, t)
    ensures Backed(t, e) && OwnFrames(start, t, e)
  {
    forall q | FIRST_PAGE <= q < PAGE_MAX
      ensures (t.HasTable(q) <==> s.HasTable(q)) && t.TableFrame(q) == s.TableFrame(q)
      ensures (t.Writable(q) <==> s.Writable(q)) && (t.WritableTable(q) <==> s.WritableTable(q))
      ensures (t.Mapped(q) <==> s.Mapped(q)) && t.FrameOf(q) == s.FrameOf(q)
    {
      assert t.tables[q] == s.tables[q];
    }
  }

  lemma PagesAfter(t: Trace, op: Op)
    requires HeapInvariant(t) && Legal(t.bs, op) && EndPage(t.bs) == FIRST_PAGE + t.pages
    ensures EndPage(Next(t, op).bs) == FIRST_PAGE + Next(t, op).pages
    ensures Next(t, op).pages
         == t.pages + if op.Alloc? && NeedsGrowth(t.bs, op.size) then PagesFor(RoundUp(op.size)) else 0
  {
    NextKeepsInvariant(t, op);
  }

  lemma StepKeepsInvariant(start: Paging.State, s: System, step: Step)
    requires start.Valid() && s.memory.Valid() && SystemInvariant(start, s) && Possible(s, step)
    ensures SystemInvariant(start, After(s, step))
  {
    hide Backed, OwnFrames, HeapInvariant, HeapUntouched, Paging.Allocated, CanGrow, Next, PagesFor, End;
    match step
    case Elsewhere(t) => ElsewhereKeepsTheHeap(start, s.memory, t, EndPage(s.trace.bs));
    case Call(op) =>
      NextKeepsInvariant(s.trace, op);
      PagesAfter(s.trace, op);
      if op.Alloc? && NeedsGrowth(s.trace.bs, op.size) {
        var e, n := EndPage(s.trace.bs), PagesFor(RoundUp(op.size));
        GrowthSucceeds(s.memory, e, n);
        GrowthTakesOwnFrames(start, s.memory, GrowCall(s.memory, e, n).value.0, e, n);
      }
  }

  /**
   * Over every run: the blocks tile the heap from its base to page `EndPage`, every page up
   * to there has a frame, and the frames of the pages and of their page tables are distinct,
   * marked, and were free at the start.
   */
  lemma {:induction false} RunsKeepTheSystem(start: Paging.State, steps: seq<Step>)
    requires start.Valid() && forall q :: FIRST_PAGE <= q < PAGE_MAX ==> !start.HasTable(q)
    requires PossibleRun(start, steps)
    ensures SystemInvariant(start, Run(start, steps))
  {
    if steps == [] {
      RunsKeepTheHeap([]);
    } else {
      RunsKeepTheSystem(start, steps[..|steps| - 1]);
      StepKeepsInvariant(start, Run(start, steps[..|steps| - 1]), steps[|steps| - 1]);
    }
  }

  lemma OwnByte(start: Paging.State, s: Paging.State, e: nat, v: u32)
    requires start.Valid() && s.Valid() && Backed(s, e) && OwnFrames(start, s, e)
    requires 4096 * FIRST_PAGE <= v < 4096 * e
    ensures s.Translate(v).Some? && s.Translate(v).value / 4096 in start.Free() && s.Writable(v / 4096)
  {
  }

  /** What a program sees: every heap byte exists, in memory that was free at the start, and can be written to. */
  lemma HeapBytesAreOwn(start: Paging.State, steps: seq<Step>, v: u32, w: u32)
    requires start.Valid() && forall q :: FIRST_PAGE <= q < PAGE_MAX ==> !start.HasTable(q)
    requires PossibleRun(start, steps)
    requires BASE <= v < w < End(Run(start, steps).trace.bs)
    ensures var s := Run(start, steps).memory;
            && s.Translate(v).Some? && s.Translate(w).Some? && s.Translate(v) != s.Translate(w)
            && s.Translate(v).value / 4096 in start.Free() && s.Writable(v / 4096)
  {
    hide Backed, OwnFrames, Run, PossibleRun, Live, NoFreeNeighbours, Sound;
    RunsKeepTheSystem(start, steps);
    var s := Run(start, steps);
    var e := EndPage(s.trace.bs);
    assert w < 4096 * e;
    HeapBytesAreDistinct(s.memory, e, v, w);
    OwnByte(start, s.memory, e, v);
  }
}
