/** Any number of threads running the sections of Add and Remove in any interleaving. */
module TrackerThreads {
  import opened MapSums
  import opened TrackerState
  import opened PeakList

  type Tid = nat

  /** Where a thread stands between the two sections of a call, and what it holds there. */
  datatype Section =
    | Outside
    | Adding(p: Addr, size: nat, memType: MemType, index: nat, stack: Stack)
    | Releasing(index: nat)

  /** `captured` remembers the stack unwound when a tracked pointer was allocated. */
  datatype Threads = Threads(tracker: State, sections: map<Tid, Section>, captured: map<Addr, Stack>)

  function Holds(index: nat): Section -> nat {
    (c: Section) => if (c.Adding? || c.Releasing?) && c.index == index then 1 else 0
  }

  function StackOf(u: Unwound): Stack {
    if u.Frames? then u.frames else []
  }

  /** First section of Add. An allocation whose index is the exit index ends here. */
  ghost predicate Unwinds(m: Threads, m': Threads, t: Tid, p: Addr, size: nat, memType: MemType, u: Unwound) {
    && t in m.sections && m.sections[t].Outside?
    && (u.Frames? && u.frames in m.tracker.keyToIndex ==> m.tracker.keyToIndex[u.frames] in m.tracker.frames)
    && var (tracker, index) := AddBacktrace(m.tracker, u);
      m' == m.(tracker := tracker,
               sections := if index == EXIT_INDEX then m.sections
                           else m.sections[t := Adding(p, size, memType, index, StackOf(u))])
  }

  /** Second section of Add. */
  ghost predicate Inserts(m: Threads, m': Threads, t: Tid, time: nat) {
    && t in m.sections && m.sections[t].Adding?
    && var c := m.sections[t];
      m' == m.(tracker := InsertPointer(m.tracker, c.p, PointerInfo(c.size, c.index, c.memType, time)),
               sections := m.sections[t := Outside], captured := m.captured[c.p := c.stack])
  }

  /** First section of Remove. */
  ghost predicate Erases(m: Threads, m': Threads, t: Tid, p: Addr) {
    && t in m.sections && m.sections[t].Outside?
    && if p !in m.tracker.pointers then m' == m
       else
         m' == m.(tracker := ErasePointer(m.tracker, p),
                  sections := m.sections[t := Releasing(m.tracker.pointers[p].hashIndex)])
  }

  /** Second section of Remove. */
  ghost predicate Releases(m: Threads, m': Threads, t: Tid) {
    && t in m.sections && m.sections[t].Releasing?
    && m' == m.(tracker := RemoveBacktrace(m.tracker, m.sections[t].index), sections := m.sections[t := Outside])
  }

  /** An allocation for which unwinding says so is not recorded, and one without a stack goes on under the empty index. */
  lemma UnwoundWithoutFrames(m: Threads, m': Threads, t: Tid, p: Addr, size: nat, memType: MemType, u: Unwound)
    requires Unwinds(m, m', t, p, size, memType, u) && !u.Frames?
    ensures m' == if u.ExitFunction? then m else m.(sections := m.sections[t := Adding(p, size, memType, EMPTY_INDEX, [])])
  {
  }

  datatype Step =
    | Unwind(t: Tid, p: Addr, size: nat, memType: MemType, u: Unwound)
    | Insert(t: Tid, time: nat)
    | Erase(t: Tid, p: Addr)
    | Release(t: Tid)
    | Nothing

  /** One section by one thread; Add is only used on keys that are not tracked. */
  ghost predicate StepsBy(m: Threads, m': Threads, step: Step) {
    match step
    case Unwind(t, p, size, memType, u) => Unwinds(m, m', t, p, size, memType, u)
    case Insert(t, time) => Inserts(m, m', t, time) && m.sections[t].p !in m.tracker.pointers
    case Erase(t, p) => Erases(m, m', t, p)
    case Release(t) => Releases(m, m', t)
    case Nothing => m' == m
  }

  ghost predicate SectionStep(m: Threads, m': Threads) {
    exists step :: StepsBy(m, m', step)
  }

  /** References to a stack record: tracked pointers, and threads between two sections. */
  ghost function Holders(m: Threads, index: nat): nat {
    Sum(m.tracker.pointers, Refers(index)) + Sum(m.sections, Holds(index))
  }

  ghost predicate Counted(m: Threads) {
    forall index :: index > EMPTY_INDEX ==> References(m.tracker, index) == Holders(m, index)
  }

  /** Every index that is held stands for the stack that was captured. */
  ghost predicate Resolves(m: Threads) {
    && (forall p :: p in m.tracker.pointers && HasStack(m.tracker.pointers[p]) ==>
          var index := m.tracker.pointers[p].hashIndex;
          p in m.captured && index in m.tracker.frames && m.tracker.frames[index].frames == m.captured[p])
    && (forall t :: t in m.sections && m.sections[t].Adding? && m.sections[t].index > EMPTY_INDEX ==>
          var c := m.sections[t];
          c.index in m.tracker.frames && m.tracker.frames[c.index].frames == c.stack)
    && (forall t :: t in m.sections && m.sections[t].Releasing? && m.sections[t].index > EMPTY_INDEX ==>
          m.sections[t].index in m.tracker.frames)
  }

  ghost predicate Inv(m: Threads) {
    Indexed(m.tracker) && Counted(m) && Resolves(m) && Accounted(m.tracker)
  }

  /** A record that somebody holds exists. */
  lemma HeldExists(m: Threads, index: nat)
    requires Counted(m) && index > EMPTY_INDEX
    requires (exists p :: p in m.tracker.pointers && m.tracker.pointers[p].hashIndex == index)
          || (exists t :: t in m.sections && Holds(index)(m.sections[t]) == 1)
    ensures References(m.tracker, index) > 0
  {
    if p :| p in m.tracker.pointers && m.tracker.pointers[p].hashIndex == index {
      SumWithout(m.tracker.pointers, Refers(index), p);
    } else {
      var t :| t in m.sections && Holds(index)(m.sections[t]) == 1;
      SumWithout(m.sections, Holds(index), t);
    }
  }

  lemma UnwindCounts(m: Threads, m': Threads, t: Tid, p: Addr, size: nat, memType: MemType, u: Unwound, index: nat)
    requires Inv(m) && Unwinds(m, m', t, p, size, memType, u) && index > EMPTY_INDEX
    ensures References(m'.tracker, index) == Holders(m', index)
  {
    hide Sum;
    AddBacktraceKeepsIndex(m.tracker, u);
    assert References(m.tracker, index) == Holders(m, index);
    if m'.sections != m.sections {
      SumInsert(m.sections, Holds(index), t, m'.sections[t]);
    }
  }

  lemma MoreFramesResolve(m: Threads, m': Threads, t: Tid, c: Section)
    requires Resolves(m) && m'.captured == m.captured && m'.tracker.pointers == m.tracker.pointers
    requires forall i :: i in m.tracker.frames ==>
               i in m'.tracker.frames && m'.tracker.frames[i].frames == m.tracker.frames[i].frames
    requires m'.sections == m.sections || m'.sections == m.sections[t := c]
    requires c.Adding? && (c.index > EMPTY_INDEX ==>
               c.index in m'.tracker.frames && m'.tracker.frames[c.index].frames == c.stack)
    ensures Resolves(m')
  {
  }

  lemma UnwindResolves(m: Threads, m': Threads, t: Tid, p: Addr, size: nat, memType: MemType, u: Unwound)
    requires Indexed(m.tracker) && Resolves(m) && Unwinds(m, m', t, p, size, memType, u)
    ensures Indexed(m'.tracker) && Resolves(m')
  {
    hide Resolves;
    AddBacktraceKeepsIndex(m.tracker, u);
    hide Indexed;
    MoreFramesResolve(m, m', t, Adding(p, size, memType, AddBacktrace(m.tracker, u).1, StackOf(u)));
  }

  lemma UnwindKeeps(m: Threads, m': Threads, t: Tid, p: Addr, size: nat, memType: MemType, u: Unwound)
    requires Inv(m) && Unwinds(m, m', t, p, size, memType, u)
    ensures Inv(m')
  {
    hide Sum, Wrap;
    UnwindResolves(m, m', t, p, size, memType, u);
    forall index | index > EMPTY_INDEX
      ensures References(m'.tracker, index) == Holders(m', index)
    {
      UnwindCounts(m, m', t, p, size, memType, u, index);
    }
  }

  lemma InsertKeeps(m: Threads, m': Threads, t: Tid, time: nat)
    requires Inv(m) && Inserts(m, m', t, time) && m.sections[t].p !in m.tracker.pointers
    ensures Inv(m')
  {
    hide Sum, Wrap;
    var c := m.sections[t];
    var info := PointerInfo(c.size, c.index, c.memType, time);
    InsertAccounts(m.tracker, c.p, info);
    forall index | index > EMPTY_INDEX
      ensures References(m'.tracker, index) == Holders(m', index)
    {
      assert References(m.tracker, index) == Holders(m, index);
      SumFresh(m.tracker.pointers, Refers(index), c.p, info);
      SumInsert(m.sections, Holds(index), t, Outside);
    }
  }

  lemma EraseKeeps(m: Threads, m': Threads, t: Tid, p: Addr)
    requires Inv(m) && Erases(m, m', t, p)
    ensures Inv(m')
  {
    hide Sum, Wrap;
    if p in m.tracker.pointers {
      EraseAccounts(m.tracker, p);
      forall index | index > EMPTY_INDEX
        ensures References(m'.tracker, index) == Holders(m', index)
      {
        assert References(m.tracker, index) == Holders(m, index);
        SumWithout(m.tracker.pointers, Refers(index), p);
        SumInsert(m.sections, Holds(index), t, m'.sections[t]);
      }
    }
  }

  lemma ReleaseCounts(m: Threads, m': Threads, t: Tid, index: nat)
    requires Inv(m) && Releases(m, m', t) && index > EMPTY_INDEX
    ensures References(m'.tracker, index) == Holders(m', index)
  {
    hide Sum;
    RemoveBacktraceKeepsIndex(m.tracker, m.sections[t].index);
    assert References(m.tracker, index) == Holders(m, index);
    SumInsert(m.sections, Holds(index), t, Outside);
  }

  /** Nothing that somebody still holds goes with the released reference. */
  lemma ReleaseResolves(m: Threads, m': Threads, t: Tid)
    requires Inv(m) && Releases(m, m', t) && Counted(m')
    ensures Resolves(m')
  {
    hide Sum;
    RemoveBacktraceKeepsIndex(m.tracker, m.sections[t].index);
    hide RemoveBacktrace, Indexed;
    forall p | p in m'.tracker.pointers && HasStack(m'.tracker.pointers[p])
      ensures m'.tracker.pointers[p].hashIndex in m'.tracker.frames
    {
      HeldExists(m', m'.tracker.pointers[p].hashIndex);
    }
    forall t' | t' in m'.sections && (m'.sections[t'].Adding? || m'.sections[t'].Releasing?)
                && m'.sections[t'].index > EMPTY_INDEX
      ensures m'.sections[t'].index in m'.tracker.frames
    {
      assert Holds(m'.sections[t'].index)(m'.sections[t']) == 1;
      HeldExists(m', m'.sections[t'].index);
    }
  }

  lemma ReleaseKeeps(m: Threads, m': Threads, t: Tid)
    requires Inv(m) && Releases(m, m', t)
    ensures Inv(m')
  {
    hide Sum, Wrap;
    RemoveBacktraceKeepsIndex(m.tracker, m.sections[t].index);
    forall index | index > EMPTY_INDEX
      ensures References(m'.tracker, index) == Holders(m', index)
    {
      ReleaseCounts(m, m', t, index);
    }
    ReleaseResolves(m, m', t);
  }

  /** Whatever section runs next, the invariant holds after it. */
  lemma StepKeeps(m: Threads, m': Threads)
    requires Inv(m) && SectionStep(m, m')
    ensures Inv(m')
  {
    hide Inv;
    var step :| StepsBy(m, m', step);
    match step
    case Unwind(t, p, size, memType, u) => UnwindKeeps(m, m', t, p, size, memType, u);
    case Insert(t, time) => InsertKeeps(m, m', t, time);
    case Erase(t, p) => EraseKeeps(m, m', t, p);
    case Release(t) => ReleaseKeeps(m, m', t);
    case Nothing =>
  }

  ghost predicate Starts(m: Threads) {
    m.tracker == INITIAL && m.captured == map[] && forall t :: t in m.sections ==> m.sections[t].Outside?
  }

  /** A run: one state after another. */
  ghost predicate IsRun(run: seq<Threads>) {
    && |run| > 0 && Starts(run[0])
    && forall i :: 0 < i < |run| ==> SectionStep(run[i - 1], run[i])
  }

  lemma StartHolds(m: Threads)
    requires Starts(m)
    ensures Inv(m)
  {
    forall index: nat
      ensures Sum(m.sections, Holds(index)) == 0
    {
      SumZero(m.sections, Holds(index));
    }
  }

  /** In every interleaving, at every moment: reference counts are exact, the index is an inverse, every tracked
      pointer still resolves to the stack captured at its allocation, and the totals are those of what is tracked. */
  lemma {:induction false} AlwaysInv(run: seq<Threads>, n: nat)
    requires IsRun(run) && n < |run|
    ensures Inv(run[n])
  {
    if n == 0 {
      StartHolds(run[0]);
    } else {
      AlwaysInv(run, n - 1);
      StepKeeps(run[n - 1], run[n]);
    }
  }

  /** Hence the lookups that the dump does not check always hit. */
  lemma AlwaysLookupsHit(run: seq<Threads>, n: nat)
    requires IsRun(run) && n < |run|
    ensures LookupsHit(run[n].tracker)
  {
    AlwaysInv(run, n);
  }

  lemma ReinsertCounts(m: Threads, m': Threads, t: Tid, time: nat, index: nat)
    requires Counted(m) && Inserts(m, m', t, time) && m.sections[t].p in m.tracker.pointers && index > EMPTY_INDEX
    ensures Holders(m', index) + (if m.tracker.pointers[m.sections[t].p].hashIndex == index then 1 else 0)
         == References(m'.tracker, index)
  {
    hide Sum, Wrap;
    var c := m.sections[t];
    assert References(m.tracker, index) == Holders(m, index);
    SumInsert(m.tracker.pointers, Refers(index), c.p, PointerInfo(c.size, c.index, c.memType, time));
    SumInsert(m.sections, Holds(index), t, Outside);
  }

  /** At every moment of every run, each line of a dump shows the stack captured when its pointer was allocated, and the size,
      kind and time of that allocation. */
  lemma LinesShowAllocations(run: seq<Threads>, n: nat, list: seq<ListInfo>, x: ListInfo)
    requires IsRun(run) && n < |run| && LookupsHit(run[n].tracker) && ListOf(run[n].tracker, list) && x in list
    ensures var m := run[n];
            && x.pointer in m.tracker.pointers && x.pointer in m.captured && x.frames in m.tracker.frames
            && m.tracker.frames[x.frames].frames == m.captured[x.pointer] && x.depth == |m.captured[x.pointer]|
            && x.frames in m.tracker.infos && x.info == m.tracker.infos[x.frames]
            && var i := m.tracker.pointers[x.pointer];
            x.size == i.size % 0x8000_0000 && x.memType == i.memType && x.time == i.time && x.num == 1
  {
    AlwaysInv(run, n);
    hide Counted, Accounted, IsRun;
  }

  /** Add on a key that is tracked already (after a failed malloc, say) loses the reference and the bytes of the entry
      it replaces: the invariant survives exactly if there were none. */
  lemma ReinsertKeepsIff(m: Threads, m': Threads, t: Tid, time: nat)
    requires Inv(m) && Inserts(m, m', t, time) && m.sections[t].p in m.tracker.pointers
    requires m.tracker.pointers[m.sections[t].p].size < WORD
    ensures var was := m.tracker.pointers[m.sections[t].p];
            Inv(m') <==> !HasStack(was) && was.size == 0
  {
    hide Sum, Wrap;
    var c := m.sections[t];
    var info, was := PointerInfo(c.size, c.index, c.memType, time), m.tracker.pointers[c.p];
    ReinsertAccounts(m.tracker, c.p, info);
    forall index | index > EMPTY_INDEX
      ensures Holders(m', index) + (if was.hashIndex == index then 1 else 0) == References(m'.tracker, index)
    {
      ReinsertCounts(m, m', t, time, index);
    }
    hide Holders, References, Accounted;
    if HasStack(was) {
      assert Holders(m', was.hashIndex) + 1 == References(m'.tracker, was.hashIndex);
    }
  }

  /** What is tracked fits a word, so that no total wraps. */
  ghost predicate Fits(s: State) {
    UsedBytes(s) < WORD
  }

  lemma ExactTotals(s: State)
    requires Accounted(s) && Fits(s)
    ensures s.used == UsedBytes(s) == s.host + s.dma
    ensures s.host == Sum(s.pointers, BytesOf(false)) && s.dma == Sum(s.pointers, BytesOf(true))
  {
    hide Sum;
    SumPlus(s.pointers, BytesOf(false), BytesOf(true), Bytes());
  }

  /** The greatest value up to the nth state of a run. */
  ghost function MaxUpTo(run: seq<Threads>, n: nat, value: State -> nat): nat
    requires n < |run|
  {
    if n == 0 then value(run[0].tracker) else Max(MaxUpTo(run, n - 1, value), value(run[n].tracker))
  }

  function Used(): State -> nat { (s: State) => s.used }

  function Host(): State -> nat { (s: State) => s.host }

  function Dma(): State -> nat { (s: State) => s.dma }

  /** The totals lie below their peaks, and the peaks belong together. */
  ghost predicate Peaked(s: State) {
    && s.used <= s.peakTot && s.host <= s.peakHost && s.dma <= s.peakDma
    && s.peakTot <= s.peakHost + s.peakDma
  }

  /** The peaks after a step take its totals into account. */
  ghost predicate PeaksFollow(s: State, s': State) {
    && s'.peakTot == Max(s.peakTot, s'.used)
    && s'.peakHost == Max(s.peakHost, s'.host)
    && s'.peakDma == Max(s.peakDma, s'.dma)
  }

  lemma InsertPeaks(s: State, p: Addr, info: PointerInfo)
    requires Accounted(s) && Accounted(InsertPointer(s, p, info)) && Peaked(s)
    requires Fits(s) && Fits(InsertPointer(s, p, info))
    ensures Peaked(InsertPointer(s, p, info)) && PeaksFollow(s, InsertPointer(s, p, info))
  {
    hide Sum;
    ExactTotals(s);
    ExactTotals(InsertPointer(s, p, info));
    hide Wrap, Accounted;
  }

  lemma ErasePeaks(s: State, p: Addr)
    requires p in s.pointers && Accounted(s) && Fits(s) && Peaked(s)
    ensures Peaked(ErasePointer(s, p)) && PeaksFollow(s, ErasePointer(s, p))
  {
    hide Sum;
    EraseAccounts(s, p);
    SumWithout(s.pointers, Bytes(), p);
    SumWithout(s.pointers, BytesOf(false), p);
    SumWithout(s.pointers, BytesOf(true), p);
    ExactTotals(s);
    ExactTotals(ErasePointer(s, p));
    hide Wrap, Accounted;
  }

  lemma TotalsKeepPeaks(s: State, s': State)
    requires Peaked(s) && s'.used == s.used && s'.host == s.host && s'.dma == s.dma
    requires s'.peakTot == s.peakTot && s'.peakHost == s.peakHost && s'.peakDma == s.peakDma
    ensures Peaked(s') && PeaksFollow(s, s')
  {
  }

  lemma UnwindPeaks(m: Threads, m': Threads, t: Tid, p: Addr, size: nat, memType: MemType, u: Unwound)
    requires Peaked(m.tracker) && Unwinds(m, m', t, p, size, memType, u)
    ensures Peaked(m'.tracker) && PeaksFollow(m.tracker, m'.tracker)
  {
    hide Peaked, PeaksFollow;
    TotalsKeepPeaks(m.tracker, m'.tracker);
  }

  lemma SectionInsertPeaks(m: Threads, m': Threads, t: Tid, time: nat)
    requires Accounted(m.tracker) && Fits(m.tracker) && Peaked(m.tracker) && Inserts(m, m', t, time)
    requires Accounted(m'.tracker) && Fits(m'.tracker)
    ensures Peaked(m'.tracker) && PeaksFollow(m.tracker, m'.tracker)
  {
    hide Accounted, Fits, Peaked, PeaksFollow, InsertPointer;
    var c := m.sections[t];
    InsertPeaks(m.tracker, c.p, PointerInfo(c.size, c.index, c.memType, time));
  }

  lemma SectionErasePeaks(m: Threads, m': Threads, t: Tid, p: Addr)
    requires Accounted(m.tracker) && Fits(m.tracker) && Peaked(m.tracker) && Erases(m, m', t, p)
    ensures Peaked(m'.tracker) && PeaksFollow(m.tracker, m'.tracker)
  {
    hide Accounted, Fits, Peaked, PeaksFollow, ErasePointer;
    if p in m.tracker.pointers {
      ErasePeaks(m.tracker, p);
    } else {
      TotalsKeepPeaks(m.tracker, m'.tracker);
    }
  }

  lemma ReleasePeaks(m: Threads, m': Threads, t: Tid)
    requires Peaked(m.tracker) && Releases(m, m', t)
    ensures Peaked(m'.tracker) && PeaksFollow(m.tracker, m'.tracker)
  {
    hide Peaked, PeaksFollow;
    TotalsKeepPeaks(m.tracker, m'.tracker);
  }

  lemma StepPeaks(m: Threads, m': Threads)
    requires Inv(m) && SectionStep(m, m') && Fits(m.tracker) && Fits(m'.tracker) && Peaked(m.tracker)
    ensures Peaked(m'.tracker) && PeaksFollow(m.tracker, m'.tracker)
  {
    StepKeeps(m, m');
    assert Accounted(m.tracker) && Accounted(m'.tracker);
    hide Inv, Accounted, Fits, Peaked, PeaksFollow, Unwinds, Inserts, Erases, Releases;
    var step :| StepsBy(m, m', step);
    match step
    case Unwind(t, p, size, memType, u) => UnwindPeaks(m, m', t, p, size, memType, u);
    case Insert(t, time) => SectionInsertPeaks(m, m', t, time);
    case Erase(t, p) => SectionErasePeaks(m, m', t, p);
    case Release(t) => ReleasePeaks(m, m', t);
    case Nothing => TotalsKeepPeaks(m.tracker, m'.tracker);
  }

  /** The peaks are the running maxima of the totals, which are the sums over what is tracked. */
  lemma {:induction false} PeaksAreMaxima(run: seq<Threads>, n: nat)
    requires IsRun(run) && n < |run| && forall i :: 0 <= i < |run| ==> Fits(run[i].tracker)
    ensures var s := run[n].tracker;
            && s.used == UsedBytes(s) && s.host == Sum(s.pointers, BytesOf(false)) && s.dma == Sum(s.pointers, BytesOf(true))
            && s.peakTot == MaxUpTo(run, n, Used()) && s.peakHost == MaxUpTo(run, n, Host())
            && s.peakDma == MaxUpTo(run, n, Dma())
            && s.peakTot <= s.peakHost + s.peakDma && Peaked(s)
  {
    hide Sum;
    AlwaysInv(run, n);
    ExactTotals(run[n].tracker);
    if n > 0 {
      AlwaysInv(run, n - 1);
      PeaksAreMaxima(run, n - 1);
      StepPeaks(run[n - 1], run[n]);
    }
  }
}
