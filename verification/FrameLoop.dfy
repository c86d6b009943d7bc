/** anytrace/atr.c: the unwinding loop. One unwinding step is an arbitrary deterministic
    function (the traced process is suspended while it runs). */
module FrameLoop {
  import opened Words
  import opened RedBlackSpec
  import opened RedBlackTree

  datatype TracerState = Running | HaveError | FrameBottom

  /** The backtracer: its state, the two registers the loop looks at, and everything else. */
  datatype Tracer<M> = Tracer(state: TracerState, sp: Word64, pc: Word64, rest: M)

  datatype FrameEntry = FrameEntry(pc: Word64, hasObjPath: bool)

  /** Why no further frame was recorded (`frame_up_fail_reason`). */
  datatype StopReason = LoopDetected | NotRunning | StepFailed

  datatype FrameList = InitFailed | Frames(entries: seq<FrameEntry>, reason: StopReason)

  /** The tracer after k steps, ignoring every stop condition. */
  function Nth<M>(up: Tracer<M> -> (int, Tracer<M>), t: Tracer<M>, k: nat): Tracer<M> {
    if k == 0 then t else up(Nth(up, t, k - 1)).1
  }

  function Pointers<M>(up: Tracer<M> -> (int, Tracer<M>), t: Tracer<M>, n: nat): set<Word64> {
    if n == 0 then {} else Pointers(up, t, n - 1) + {Nth(up, t, n - 1).sp}
  }

  function EntryOf<M>(t: Tracer<M>): FrameEntry {
    FrameEntry(t.pc, t.state == Running)
  }

  /** The k-th tracer is running and its step succeeds. */
  predicate Advances<M>(up: Tracer<M> -> (int, Tracer<M>), t: Tracer<M>, k: nat) {
    Nth(up, t, k).state == Running && up(Nth(up, t, k)).0 == 0
  }

  ghost predicate DistinctPointers<M>(up: Tracer<M> -> (int, Tracer<M>), t: Tracer<M>, n: nat) {
    forall i, j :: 0 <= i < j < n ==> Nth(up, t, i).sp != Nth(up, t, j).sp
  }

  /** Exactly n frames precede the first reason to stop, and `reason` is that reason. */
  ghost predicate StopsAfter<M>(up: Tracer<M> -> (int, Tracer<M>), t: Tracer<M>, n: nat, reason: StopReason) {
    && n > 0
    && DistinctPointers(up, t, n)
    && (forall k :: 0 <= k < n - 1 ==> Advances(up, t, k))
    && match reason
       case LoopDetected =>
         Advances(up, t, n - 1) && SeenBefore(up, t, n, Nth(up, t, n).sp)
       case NotRunning =>
         Nth(up, t, n - 1).state != Running
       case StepFailed =>
         Nth(up, t, n - 1).state == Running && up(Nth(up, t, n - 1)).0 != 0
  }

  /** The stopping point is determined by the step function and the start alone. */
  lemma StopIsUnique<M>(up: Tracer<M> -> (int, Tracer<M>), t: Tracer<M>,
                        n: nat, r: StopReason, n': nat, r': StopReason)
    requires StopsAfter(up, t, n, r) && StopsAfter(up, t, n', r')
    ensures n == n' && r == r'
  {
    LaterStopNeedsAdvance(up, t, n, r, n');
    LaterStopNeedsAdvance(up, t, n', r', n);
  }

  lemma LaterStopNeedsAdvance<M>(up: Tracer<M> -> (int, Tracer<M>), t: Tracer<M>, n: nat, r: StopReason, n': nat)
    requires StopsAfter(up, t, n, r) && DistinctPointers(up, t, n')
    requires forall k :: 0 <= k < n' - 1 ==> Advances(up, t, k)
    ensures n' <= n
  {
    var last := Advances(up, t, n - 1);
  }

  /** One of the first n tracers has stack pointer p. */
  ghost predicate SeenBefore<M>(up: Tracer<M> -> (int, Tracer<M>), t: Tracer<M>, n: nat, p: Word64) {
    exists j :: 0 <= j < n && Nth(up, t, j).sp == p
  }

  lemma {:induction false} PointersAreThePrefix<M>(up: Tracer<M> -> (int, Tracer<M>), t: Tracer<M>, n: nat, p: Word64)
    ensures p in Pointers(up, t, n) <==> SeenBefore(up, t, n, p)
  {
    if n > 0 {
      PointersAreThePrefix(up, t, n - 1, p);
      if p == Nth(up, t, n - 1).sp {
        assert SeenBefore(up, t, n, p);
      }
    }
  }

  /** Recording a pointer that is not in the set yet keeps the frames distinct. */
  lemma ExtendDistinct<M>(up: Tracer<M> -> (int, Tracer<M>), t: Tracer<M>, n: nat)
    requires DistinctPointers(up, t, n) && Nth(up, t, n).sp !in Pointers(up, t, n)
    ensures DistinctPointers(up, t, n + 1)
  {
    PointersAreThePrefix(up, t, n, Nth(up, t, n).sp);
  }

  lemma {:induction false} DistinctPointersCount<M>(up: Tracer<M> -> (int, Tracer<M>), t: Tracer<M>, n: nat)
    requires DistinctPointers(up, t, n)
    ensures |Pointers(up, t, n)| == n
  {
    if n > 0 {
      DistinctPointersCount(up, t, n - 1);
      PointersAreThePrefix(up, t, n - 1, Nth(up, t, n - 1).sp);
    }
  }

  /** Every value a stack pointer can take. */
  ghost function AllWords(): set<int> {
    set w: int | 0 <= w < TWO64 && IsWord(w)
  }

  predicate IsWord(w: int) {
    0 <= w < TWO64
  }

  /** What the loop knows after recording `entries`. */
  ghost predicate Recorded<M>(up: Tracer<M> -> (int, Tracer<M>), t: Tracer<M>,
                              entries: seq<FrameEntry>, visited: set<Word64>) {
    && DistinctPointers(up, t, |entries|)
    && visited == Pointers(up, t, |entries|)
    && (forall k :: 0 <= k < |entries| ==> entries[k] == EntryOf(Nth(up, t, k)))
  }

  ghost predicate AllAdvance<M>(up: Tracer<M> -> (int, Tracer<M>), t: Tracer<M>, n: nat) {
    forall k :: 0 <= k < n ==> Advances(up, t, k)
  }

  lemma NothingRecorded<M>(up: Tracer<M> -> (int, Tracer<M>), t: Tracer<M>)
    ensures Recorded(up, t, [], {})
  {
  }

  lemma RecordOne<M>(up: Tracer<M> -> (int, Tracer<M>), t: Tracer<M>, entries: seq<FrameEntry>, visited: set<Word64>)
    requires Recorded(up, t, entries, visited) && Nth(up, t, |entries|).sp !in visited
    ensures var tr := Nth(up, t, |entries|);
            Recorded(up, t, entries + [EntryOf(tr)], visited + {tr.sp})
  {
    ExtendDistinct(up, t, |entries|);
  }

  lemma StopsAtLoop<M>(up: Tracer<M> -> (int, Tracer<M>), t: Tracer<M>, entries: seq<FrameEntry>, visited: set<Word64>)
    requires Recorded(up, t, entries, visited) && AllAdvance(up, t, |entries|)
    requires Nth(up, t, |entries|).sp in visited
    ensures StopsAfter(up, t, |entries|, LoopDetected)
  {
    PointersAreThePrefix(up, t, |entries|, Nth(up, t, |entries|).sp);
    assert |entries| > 0 && Advances(up, t, |entries| - 1);
  }

  lemma StopsAtLast<M>(up: Tracer<M> -> (int, Tracer<M>), t: Tracer<M>, n: nat)
    requires n > 0 && DistinctPointers(up, t, n) && AllAdvance(up, t, n - 1) && !Advances(up, t, n - 1)
    ensures StopsAfter(up, t, n, if Nth(up, t, n - 1).state == Running then StepFailed else NotRunning)
  {
  }

  /** `ATR_get_frame`; `init` is what `ATR_backtrace_init` returned and left in the tracer. */
  method GetFrame<M>(init: (int, Tracer<M>), up: Tracer<M> -> (int, Tracer<M>))
    returns (r: int, frames: FrameList, ghost visited: set<Word64>, ghost trace: seq<Tracer<M>>)
    ensures init.0 < 0 <==> r < 0
    ensures r < 0 <==> frames.InitFailed?
    ensures frames.Frames? ==>
              && StopsAfter(up, init.1, |frames.entries|, frames.reason)
              && Recorded(up, init.1, frames.entries, visited)
              && |visited| == |frames.entries|
              && Explained(init.1, up, frames.entries, frames.reason, trace)
  {
    if init.0 < 0 {
      return -1, InitFailed, {}, [];
    }
    var entries, reason;
    entries, reason, visited, trace := Unwind(init.1, up);
    DistinctPointersCount(up, init.1, |entries|);
    return 0, Frames(entries, reason), visited, trace;
  }

  /** The recorded frames and the stop reason, told by the tracers the loop went through: each is
      the step of the one before; the k-th entry has the k-th tracer's pc, and an object path
      exactly if that tracer was running; the stack pointers are pairwise distinct; all but the
      last tracer were running and stepped successfully; and the last one was not running, or its
      step failed, or its step led back to a stack pointer seen before. */
  ghost predicate Explained<M>(t: Tracer<M>, up: Tracer<M> -> (int, Tracer<M>), entries: seq<FrameEntry>, reason: StopReason,
                               trace: seq<Tracer<M>>) {
    && |trace| == |entries| > 0 && trace[0] == t
    && (forall k :: 0 <= k < |trace| - 1 ==> trace[k].state == Running && up(trace[k]) == (0, trace[k + 1]))
    && (forall k :: 0 <= k < |entries| ==>
          entries[k].pc == trace[k].pc && (entries[k].hasObjPath <==> trace[k].state == Running))
    && (forall i, j :: 0 <= i < j < |trace| ==> trace[i].sp != trace[j].sp)
    && var last := trace[|trace| - 1];
       match reason
       case NotRunning => last.state != Running
       case StepFailed => last.state == Running && up(last).0 != 0
       case LoopDetected =>
         last.state == Running && up(last).0 == 0 && exists j :: 0 <= j < |trace| && trace[j].sp == up(last).1.sp
  }

  /** The first n tracers. */
  ghost function Trace<M>(up: Tracer<M> -> (int, Tracer<M>), t: Tracer<M>, n: nat): (trace: seq<Tracer<M>>)
    ensures |trace| == n && forall k :: 0 <= k < n ==> trace[k] == Nth(up, t, k)
  {
    if n == 0 then [] else Trace(up, t, n - 1) + [Nth(up, t, n - 1)]
  }

  lemma TraceExplains<M>(t: Tracer<M>, up: Tracer<M> -> (int, Tracer<M>), entries: seq<FrameEntry>, reason: StopReason,
                         visited: set<Word64>)
    requires StopsAfter(up, t, |entries|, reason) && Recorded(up, t, entries, visited)
    ensures Explained(t, up, entries, reason, Trace(up, t, |entries|))
  {
    var n := |entries|;
    var trace := Trace(up, t, n);
    forall k | 0 <= k < n - 1 ensures trace[k].state == Running && up(trace[k]) == (0, trace[k + 1]) {
      assert Advances(up, t, k);
    }
    if reason == LoopDetected {
      var j :| 0 <= j < n && Nth(up, t, j).sp == Nth(up, t, n).sp;
      assert trace[j].sp == up(trace[n - 1]).1.sp;
    }
  }

  /** The loop. It terminates for every step function, because each round puts a new stack
      pointer into the visited tree; `visited` is that tree's key set at the end. */
  method Unwind<M>(t: Tracer<M>, up: Tracer<M> -> (int, Tracer<M>))
    returns (entries: seq<FrameEntry>, reason: StopReason, ghost visited: set<Word64>, ghost trace: seq<Tracer<M>>)
    ensures StopsAfter(up, t, |entries|, reason)
    ensures Recorded(up, t, entries, visited)
    ensures Explained(t, up, entries, reason, trace)
  {
    hide RedBlack, ValidTree, Contents, Pointers, DistinctPointers, StopsAfter, Explained;
    var tr := t;
    var tree := new RbTree();
    entries, visited, trace := [], {}, [];
    NothingRecorded(up, t);
    while true
      invariant Tracked(tree, visited) && fresh(tree.Repr())
      invariant tr == Nth(up, t, |entries|)
      invariant Recorded(up, t, entries, visited)
      invariant AllAdvance(up, t, |entries|)
      decreases AllWords() - visited
    {
      ghost var before := visited;
      var insertNew;
      insertNew, visited := Visit(tree, tr.sp, visited);
      if !insertNew {
        reason := LoopDetected;
        StopsAtLoop(up, t, entries, visited);
        break;
      }
      RecordOne(up, t, entries, before);
      entries := entries + [EntryOf(tr)];
      if tr.state != Running {
        reason := NotRunning;
        StopsAtLast(up, t, |entries|);
        break;
      }
      var (s, next) := up(tr);
      if s != 0 {
        reason := StepFailed;
        StopsAtLast(up, t, |entries|);
        break;
      }
      tr := next;
    }
    trace := Trace(up, t, |entries|);
    TraceExplains(t, up, entries, reason, visited);
  }

  ghost predicate Tracked(tree: RbTree, visited: set<Word64>)
    reads tree, tree.root, ReprOf(tree.root)
  {
    tree.Valid() && visited == tree.Model().Keys
  }

  /** Put a stack pointer into the visited tree, telling whether it is new. */
  method Visit(tree: RbTree, sp: Word64, ghost visited: set<Word64>) returns (insertNew: bool, ghost visited': set<Word64>)
    requires Tracked(tree, visited)
    modifies tree.Repr()
    ensures Tracked(tree, visited') && fresh(tree.Repr() - old(tree.Repr()))
    ensures if sp in visited then !insertNew && visited' == visited
            else insertNew && visited' == visited + {sp} && AllWords() - visited' < AllWords() - visited
  {
    insertNew := tree.InsertKey(sp, 1);
    visited' := if sp in visited then visited else visited + {sp};
    assert IsWord(sp);
  }
}
