/** The allocation hooks of any number of threads: the order of system call, Add and Remove.

    The system allocator is the set of its live addresses; it gives out an address only when it is not live. A hook
    that allocates calls the system first and Add afterwards; a hook that frees calls Remove first. */
module MallocHooks {
  import opened MapSums
  import opened TrackerState
  import T = TrackerThreads

  type Tid = nat

  /** What follows a Remove: the system free (or munmap, close), or the system realloc and an Add. */
  datatype After = Free | Realloc(size: nat)

  datatype Pc =
    | Idle
    | Acquired(p: Addr, size: nat, memType: MemType)
    | Adding(p: Addr, size: nat, memType: MemType, index: nat, stack: Stack)
    | Removing(p: Addr, then_: After)
    | Releasing(p: Addr, index: nat, then_: After)
    | Removed(p: Addr, then_: After)

  /** `owned` holds the addresses that hooks gave to the program and that it has not handed back. */
  datatype Process = Process(tracker: State, pcs: map<Tid, Pc>, captured: map<Addr, Stack>,
                             heap: set<Addr>, owned: set<Addr>)

  datatype Step =
    | Acquire(t: Tid, p: Addr, size: nat, memType: MemType)
    | Unwind(t: Tid, u: Unwound)
    | Insert(t: Tid, time: nat)
    | Return(t: Tid, p: Addr, then_: After)
    | Erase(t: Tid)
    | Release(t: Tid)
    | SystemFree(t: Tid)
    | SystemRealloc(t: Tid, q: Addr)
    | Unhooked(heap: set<Addr>)

  /** The successful system call of malloc, calloc, memalign, mmap or ioctl. */
  ghost predicate Acquires(x: Process, x': Process, t: Tid, p: Addr, size: nat, memType: MemType) {
    && t in x.pcs && x.pcs[t].Idle? && p !in x.heap
    && x' == x.(heap := x.heap + {p}, pcs := x.pcs[t := Acquired(p, size, memType)])
  }

  ghost predicate Unwinds(x: Process, x': Process, t: Tid, u: Unwound) {
    && t in x.pcs && x.pcs[t].Acquired?
    && (u.Frames? && u.frames in x.tracker.keyToIndex ==> x.tracker.keyToIndex[u.frames] in x.tracker.frames)
    && var c, (tracker, index) := x.pcs[t], AddBacktrace(x.tracker, u);
      if index == EXIT_INDEX then
        x' == x.(tracker := tracker, pcs := x.pcs[t := Idle], owned := x.owned + {c.p})
      else
        x' == x.(tracker := tracker, pcs := x.pcs[t := Adding(c.p, c.size, c.memType, index, T.StackOf(u))])
  }

  ghost predicate Inserts(x: Process, x': Process, t: Tid, time: nat) {
    && t in x.pcs && x.pcs[t].Adding?
    && var c := x.pcs[t];
      x' == x.(tracker := InsertPointer(x.tracker, c.p, PointerInfo(c.size, c.index, c.memType, time)),
               pcs := x.pcs[t := Idle], captured := x.captured[c.p := c.stack], owned := x.owned + {c.p})
  }

  /** The program hands an address back: free, munmap, close or realloc. */
  ghost predicate Returns(x: Process, x': Process, t: Tid, p: Addr, then_: After) {
    && t in x.pcs && x.pcs[t].Idle? && p in x.owned
    && x' == x.(owned := x.owned - {p}, pcs := x.pcs[t := Removing(p, then_)])
  }

  ghost predicate Erases(x: Process, x': Process, t: Tid) {
    && t in x.pcs && x.pcs[t].Removing?
    && var c := x.pcs[t];
      if c.p !in x.tracker.pointers then x' == x.(pcs := x.pcs[t := Removed(c.p, c.then_)])
      else
        x' == x.(tracker := ErasePointer(x.tracker, c.p),
                 pcs := x.pcs[t := Releasing(c.p, x.tracker.pointers[c.p].hashIndex, c.then_)])
  }

  ghost predicate Releases(x: Process, x': Process, t: Tid) {
    && t in x.pcs && x.pcs[t].Releasing?
    && var c := x.pcs[t];
      x' == x.(tracker := RemoveBacktrace(x.tracker, c.index), pcs := x.pcs[t := Removed(c.p, c.then_)])
  }

  ghost predicate SystemFrees(x: Process, x': Process, t: Tid) {
    && t in x.pcs && x.pcs[t].Removed? && x.pcs[t].then_.Free?
    && x' == x.(heap := x.heap - {x.pcs[t].p}, pcs := x.pcs[t := Idle])
  }

  /** The block may stay where it is, or move to any address that is not live. */
  ghost predicate SystemReallocs(x: Process, x': Process, t: Tid, q: Addr) {
    && t in x.pcs && x.pcs[t].Removed? && x.pcs[t].then_.Realloc?
    && var c := x.pcs[t];
      && (q == c.p || q !in x.heap)
      && x' == x.(heap := x.heap - {c.p} + {q}, pcs := x.pcs[t := Acquired(q, c.then_.size, HOST)])
  }

  /** Allocation and freeing that no hook sees; it does not touch what a hook gave out or is working on. */
  ghost predicate BypassesHooks(x: Process, x': Process, heap: set<Addr>) {
    && x.owned <= heap
    && (forall t :: t in x.pcs && !x.pcs[t].Idle? ==> x.pcs[t].p in heap)
    && x' == x.(heap := heap)
  }

  ghost predicate StepsBy(x: Process, x': Process, step: Step) {
    match step
    case Acquire(t, p, size, memType) => Acquires(x, x', t, p, size, memType)
    case Unwind(t, u) => Unwinds(x, x', t, u)
    case Insert(t, time) => Inserts(x, x', t, time)
    case Return(t, p, then_) => Returns(x, x', t, p, then_)
    case Erase(t) => Erases(x, x', t)
    case Release(t) => Releases(x, x', t)
    case SystemFree(t) => SystemFrees(x, x', t)
    case SystemRealloc(t, q) => SystemReallocs(x, x', t, q)
    case Unhooked(heap) => BypassesHooks(x, x', heap)
  }

  ghost predicate HookStep(x: Process, x': Process) {
    exists step :: StepsBy(x, x', step)
  }

  ghost predicate IsRemoving(x: Process, p: Addr) {
    exists t :: t in x.pcs && x.pcs[t].Removing? && x.pcs[t].p == p
  }

  /** Who has an address: the program, or one hook; and only the program's, and those about to be forgotten, are tracked. */
  ghost predicate Safe(x: Process) {
    && x.owned <= x.heap
    && (forall t :: t in x.pcs && !x.pcs[t].Idle? ==> x.pcs[t].p in x.heap && x.pcs[t].p !in x.owned)
    && (forall t, t' :: t in x.pcs && t' in x.pcs && t != t' && !x.pcs[t].Idle? && !x.pcs[t'].Idle? ==>
          x.pcs[t].p != x.pcs[t'].p)
    && (forall p :: p in x.tracker.pointers ==> p in x.owned || IsRemoving(x, p))
  }

  /** A thread other than `t` that is removing goes on doing so. */
  lemma OthersGoOnRemoving(x: Process, x': Process, t: Tid)
    requires t in x.pcs && !x.pcs[t].Removing? && x'.pcs.Keys == x.pcs.Keys
    requires forall t' :: t' in x.pcs && t' != t ==> x'.pcs[t'] == x.pcs[t']
    ensures forall p :: IsRemoving(x, p) ==> IsRemoving(x', p)
  {
    forall p | IsRemoving(x, p)
      ensures IsRemoving(x', p)
    {
      var t' :| t' in x.pcs && x.pcs[t'].Removing? && x.pcs[t'].p == p;
      assert x'.pcs[t'].Removing?;
    }
  }

  lemma EraseStaysSafe(x: Process, x': Process, t: Tid)
    requires Safe(x) && Erases(x, x', t)
    ensures Safe(x')
  {
    forall p | p in x'.tracker.pointers
      ensures p in x'.owned || IsRemoving(x', p)
    {
      if p !in x.owned {
        var t' :| t' in x.pcs && x.pcs[t'].Removing? && x.pcs[t'].p == p;
        assert t' != t;
        assert x'.pcs[t'].Removing?;
      }
    }
  }

  /** A thread moves on with the address it holds, or gives it to the program; what is tracked gains only that. */
  lemma MoveStaysSafe(x: Process, x': Process, t: Tid)
    requires Safe(x) && t in x.pcs && !x.pcs[t].Idle? && !x.pcs[t].Removing?
    requires t in x'.pcs && x'.pcs == x.pcs[t := x'.pcs[t]] && !x'.pcs[t].Removing? && x'.heap == x.heap
    requires if x'.pcs[t].Idle? then x'.owned == x.owned + {x.pcs[t].p}
             else x'.owned == x.owned && x'.pcs[t].p == x.pcs[t].p
    requires x'.tracker.pointers.Keys <= x.tracker.pointers.Keys + (if x'.pcs[t].Idle? then {x.pcs[t].p} else {})
    ensures Safe(x')
  {
    OthersGoOnRemoving(x, x', t);
  }

  lemma SystemCallStaysSafe(x: Process, x': Process, t: Tid, step: Step)
    requires Safe(x) && StepsBy(x, x', step)
    requires (step.Acquire? || step.SystemFree? || step.SystemRealloc?) && t == step.t
    ensures Safe(x')
  {
    OthersGoOnRemoving(x, x', t);
  }

  lemma ReturnStaysSafe(x: Process, x': Process, t: Tid, p: Addr, then_: After)
    requires Safe(x) && Returns(x, x', t, p, then_)
    ensures Safe(x')
  {
    OthersGoOnRemoving(x, x', t);
    assert x'.pcs[t].Removing? && x'.pcs[t].p == p;
  }

  lemma StaysSafe(x: Process, x': Process)
    requires Safe(x) && HookStep(x, x')
    ensures Safe(x')
  {
    hide Safe, IsRemoving;
    var step :| StepsBy(x, x', step);
    match step
    case Acquire(t, p, size, memType) => SystemCallStaysSafe(x, x', t, step);
    case Unwind(t, u) => MoveStaysSafe(x, x', t);
    case Insert(t, time) => MoveStaysSafe(x, x', t);
    case Return(t, p, then_) => ReturnStaysSafe(x, x', t, p, then_);
    case Erase(t) => EraseStaysSafe(x, x', t);
    case Release(t) => MoveStaysSafe(x, x', t);
    case SystemFree(t) => SystemCallStaysSafe(x, x', t, step);
    case SystemRealloc(t, q) => SystemCallStaysSafe(x, x', t, step);
    case Unhooked(heap) => BypassStaysSafe(x, x', heap);
  }

  lemma BypassStaysSafe(x: Process, x': Process, heap: set<Addr>)
    requires Safe(x) && BypassesHooks(x, x', heap)
    ensures Safe(x')
  {
    forall p | IsRemoving(x, p)
      ensures IsRemoving(x', p)
    {
    }
  }

  function SectionOf(c: Pc): T.Section {
    match c
    case Adding(p, size, memType, index, stack) => T.Adding(p, size, memType, index, stack)
    case Releasing(p, index, then_) => T.Releasing(index)
    case _ => T.Outside
  }

  /** The process as the tracker sees it: what each thread does between its sections is hidden. */
  function Project(x: Process): T.Threads {
    T.Threads(x.tracker, map t | t in x.pcs :: SectionOf(x.pcs[t]), x.captured)
  }

  lemma ProjectMove(x: Process, x': Process, t: Tid)
    requires t in x.pcs && t in x'.pcs && x'.pcs == x.pcs[t := x'.pcs[t]]
    ensures Project(x').sections == Project(x).sections[t := SectionOf(x'.pcs[t])]
    ensures SectionOf(x'.pcs[t]) == SectionOf(x.pcs[t]) ==> Project(x').sections == Project(x).sections
  {
  }

  lemma UnwindRefines(x: Process, x': Process, t: Tid, u: Unwound)
    requires Unwinds(x, x', t, u)
    ensures T.Unwinds(Project(x), Project(x'), t, x.pcs[t].p, x.pcs[t].size, x.pcs[t].memType, u)
  {
    ProjectMove(x, x', t);
  }

  /** Every step of a hook is a section of the tracker, or none of its business. */
  lemma StepRefines(x: Process, x': Process)
    requires Safe(x) && HookStep(x, x')
    ensures T.SectionStep(Project(x), Project(x'))
  {
    var step :| StepsBy(x, x', step);
    var step' := SectionStepOf(x, x', step);
    assert T.StepsBy(Project(x), Project(x'), step');
  }

  lemma SectionStepOf(x: Process, x': Process, step: Step) returns (step': T.Step)
    requires Safe(x) && StepsBy(x, x', step)
    ensures T.StepsBy(Project(x), Project(x'), step')
  {
    step' := T.Nothing;
    if !step.Unhooked? {
      ProjectMove(x, x', step.t);
    }
    match step
    case Unwind(t, u) =>
      UnwindRefines(x, x', t, u);
      step' := T.Unwind(t, x.pcs[t].p, x.pcs[t].size, x.pcs[t].memType, u);
    case Insert(t, time) =>
      step' := T.Insert(t, time);
    case Erase(t) =>
      step' := T.Erase(t, x.pcs[t].p);
    case Release(t) =>
      step' := T.Release(t);
    case _ =>
  }

  ghost predicate Starts(x: Process) {
    && x.tracker == INITIAL && x.captured == map[] && x.owned == {}
    && forall t :: t in x.pcs ==> x.pcs[t].Idle?
  }

  ghost predicate IsRun(run: seq<Process>) {
    && |run| > 0 && Starts(run[0])
    && forall i :: 0 < i < |run| ==> HookStep(run[i - 1], run[i])
  }

  function ProjectRun(run: seq<Process>): seq<T.Threads> {
    seq(|run|, i requires 0 <= i < |run| => Project(run[i]))
  }

  lemma {:induction false} AlwaysSafe(run: seq<Process>, n: nat)
    requires IsRun(run) && n < |run|
    ensures Safe(run[n])
  {
    if n > 0 {
      AlwaysSafe(run, n - 1);
      StaysSafe(run[n - 1], run[n]);
    }
  }

  /** In no run does a thread come to the recording of an address that is tracked. */
  lemma AddedIsUntracked(run: seq<Process>, n: nat, t: Tid)
    requires IsRun(run) && n < |run| && t in run[n].pcs && run[n].pcs[t].Adding?
    ensures run[n].pcs[t].p !in run[n].tracker.pointers
  {
    AlwaysSafe(run, n);
  }

  /** Runs of the hooks are runs of the tracker in which every Add is on an untracked key. */
  lemma RunRefines(run: seq<Process>)
    requires IsRun(run)
    ensures T.IsRun(ProjectRun(run))
  {
    var projected := ProjectRun(run);
    forall i | 0 < i < |projected|
      ensures T.SectionStep(projected[i - 1], projected[i])
    {
      AlwaysSafe(run, i - 1);
      assert HookStep(run[i - 1], run[i]);
      StepRefines(run[i - 1], run[i]);
    }
  }

  /** Whatever the threads do, the tracker's invariant holds throughout. As long as they fit in a word, the totals are the
      sums over what is tracked, and the peaks are the running maxima of those totals. */
  lemma HooksAccount(run: seq<Process>, n: nat)
    requires IsRun(run) && n < |run|
    ensures T.Inv(Project(run[n]))
    ensures (forall i :: 0 <= i < |run| ==> T.Fits(run[i].tracker)) ==>
              var s, projected := run[n].tracker, ProjectRun(run);
              && s.used == UsedBytes(s) && s.host == Sum(s.pointers, BytesOf(false)) && s.dma == Sum(s.pointers, BytesOf(true))
              && s.peakTot == T.MaxUpTo(projected, n, T.Used()) && s.peakHost == T.MaxUpTo(projected, n, T.Host())
              && s.peakDma == T.MaxUpTo(projected, n, T.Dma())
              && s.peakTot <= s.peakHost + s.peakDma && T.Peaked(s)
  {
    hide Sum, T.Inv, T.Peaked;
    RunRefines(run);
    T.AlwaysInv(ProjectRun(run), n);
    if forall i :: 0 <= i < |run| ==> T.Fits(run[i].tracker) {
      hide T.Fits;
      T.PeaksAreMaxima(ProjectRun(run), n);
    }
  }
}
