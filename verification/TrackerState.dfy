/** What the allocation tracker records, and its four locked sections as functions on that record.

    Add and Remove each run as two sections under different locks. Between the two an index is held by the
    thread alone. */
module TrackerState {
  import opened MapSums

  type Addr = nat

  // Program counters of a call stack, innermost first.
  type Stack = seq<nat>

  datatype MemType = HOST | MMAP | DMA

  datatype PointerInfo = PointerInfo(size: nat, hashIndex: nat, memType: MemType, time: nat)

  datatype FrameInfo = FrameInfo(references: nat, frames: Stack)

  /** What unwinding the caller's stack gave. */
  datatype Unwound = Frames(frames: Stack, info: seq<nat>) | ExitFunction | NoFrames

  // The index of an allocation that is not to be recorded at all, and of one recorded without a stack.
  const EXIT_INDEX := 0
  const EMPTY_INDEX := 1

  const WORD := 0x1_0000_0000_0000_0000

  /** A size_t: arithmetic is modulo the word. */
  function Wrap(x: int): nat {
    x % WORD
  }

  datatype State = State(
    pointers: map<Addr, PointerInfo>,
    keyToIndex: map<Stack, nat>,
    frames: map<nat, FrameInfo>,
    infos: map<nat, seq<nat>>,
    curIndex: nat,
    used: nat, host: nat, dma: nat,
    peakTot: nat, peakHost: nat, peakDma: nat)

  const INITIAL := State(map[], map[], map[], map[], EMPTY_INDEX + 1, 0, 0, 0, 0, 0, 0)

  /** The first section of Add: find or make the record of a stack, and take a reference to it. */
  function AddBacktrace(s: State, u: Unwound): (State, nat)
    requires u.Frames? && u.frames in s.keyToIndex ==> s.keyToIndex[u.frames] in s.frames
  {
    match u
    case ExitFunction => (s, EXIT_INDEX)
    case NoFrames => (s, EMPTY_INDEX)
    case Frames(frames, info) =>
      if frames in s.keyToIndex then
        var index := s.keyToIndex[frames];
        (s.(frames := s.frames[index := s.frames[index].(references := s.frames[index].references + 1)]), index)
      else
        (s.(keyToIndex := s.keyToIndex[frames := s.curIndex],
            frames := s.frames[s.curIndex := FrameInfo(1, frames)],
            infos := s.infos[s.curIndex := info],
            curIndex := s.curIndex + 1),
         s.curIndex)
  }

  function Max(a: nat, b: nat): nat {
    if a < b then b else a
  }

  /** The second section of Add: record the pointer and count its bytes. */
  function InsertPointer(s: State, p: Addr, info: PointerInfo): State {
    var used := Wrap(s.used + info.size);
    var host := if info.memType.DMA? then s.host else Wrap(s.host + info.size);
    var dma := if info.memType.DMA? then Wrap(s.dma + info.size) else s.dma;
    s.(pointers := s.pointers[p := info], used := used, host := host, dma := dma,
       peakHost := if info.memType.DMA? then s.peakHost else Max(s.peakHost, host),
       peakDma := if info.memType.DMA? then Max(s.peakDma, dma) else s.peakDma,
       peakTot := Max(s.peakTot, used))
  }

  /** The first section of Remove: forget a tracked pointer. */
  function ErasePointer(s: State, p: Addr): State
    requires p in s.pointers
  {
    var info := s.pointers[p];
    s.(pointers := s.pointers - {p},
       used := Wrap(s.used - info.size),
       host := if info.memType.DMA? then s.host else Wrap(s.host - info.size),
       dma := if info.memType.DMA? then Wrap(s.dma - info.size) else s.dma)
  }

  /** A count is a size_t as well: it wraps below zero. */
  function Decremented(references: nat): nat {
    if references == 0 then WORD - 1 else references - 1
  }

  /** The second section of Remove: give up a reference, and with the last one the record. */
  function RemoveBacktrace(s: State, index: nat): State {
    if index <= EMPTY_INDEX || index !in s.frames then s
    else
      var frame := s.frames[index];
      var left := Decremented(frame.references);
      if left == 0 then
        s.(keyToIndex := s.keyToIndex - {frame.frames}, frames := s.frames - {index}, infos := s.infos - {index})
      else
        s.(frames := s.frames[index := frame.(references := left)])
  }

  function Bytes(): PointerInfo -> nat {
    (i: PointerInfo) => i.size
  }

  function BytesOf(dma: bool): PointerInfo -> nat {
    (i: PointerInfo) => if i.memType.DMA? == dma then i.size else 0
  }

  function Refers(index: nat): PointerInfo -> nat {
    (i: PointerInfo) => if i.hashIndex == index then 1 else 0
  }

  ghost function UsedBytes(s: State): nat {
    Sum(s.pointers, Bytes())
  }

  /** The totals are the sums over what is tracked, modulo the word. */
  ghost predicate Accounted(s: State) {
    && s.used == Wrap(UsedBytes(s))
    && s.host == Wrap(Sum(s.pointers, BytesOf(false)))
    && s.dma == Wrap(Sum(s.pointers, BytesOf(true)))
  }

  /** The stack records and their index are each other's inverse. */
  ghost predicate Indexed(s: State) {
    && (forall k :: k in s.keyToIndex ==> s.keyToIndex[k] in s.frames && s.frames[s.keyToIndex[k]].frames == k)
    && (forall i :: i in s.frames ==> s.frames[i].frames in s.keyToIndex && s.keyToIndex[s.frames[i].frames] == i)
    && (forall i :: i in s.frames ==> EMPTY_INDEX < i < s.curIndex && s.frames[i].references > 0)
    && EMPTY_INDEX < s.curIndex && s.infos.Keys == s.frames.Keys
  }

  function References(s: State, index: nat): nat {
    if index in s.frames then s.frames[index].references else 0
  }

  lemma WrapAdds(a: nat, b: int)
    ensures Wrap(Wrap(a) + b) == Wrap(a + b)
  {
  }

  lemma TotalInserts(m: map<Addr, PointerInfo>, weight: PointerInfo -> nat, total: nat, p: Addr, info: PointerInfo)
    requires p !in m && total == Wrap(Sum(m, weight))
    ensures Wrap(total + weight(info)) == Wrap(Sum(m[p := info], weight))
    ensures weight(info) == 0 ==> total == Wrap(Sum(m[p := info], weight))
  {
    hide Sum, Wrap;
    SumFresh(m, weight, p, info);
    WrapAdds(Sum(m, weight), weight(info));
  }

  lemma TotalErases(m: map<Addr, PointerInfo>, weight: PointerInfo -> nat, total: nat, p: Addr)
    requires p in m && total == Wrap(Sum(m, weight))
    ensures Wrap(total - weight(m[p])) == Wrap(Sum(m - {p}, weight))
    ensures weight(m[p]) == 0 ==> total == Wrap(Sum(m - {p}, weight))
  {
    SumWithout(m, weight, p);
    WrapAdds(Sum(m, weight), 0 - weight(m[p]));
  }

  lemma InsertAccounts(s: State, p: Addr, info: PointerInfo)
    requires Accounted(s) && p !in s.pointers
    ensures Accounted(InsertPointer(s, p, info))
  {
    hide Sum;
    TotalInserts(s.pointers, Bytes(), s.used, p, info);
    TotalInserts(s.pointers, BytesOf(false), s.host, p, info);
    TotalInserts(s.pointers, BytesOf(true), s.dma, p, info);
  }

  lemma EraseAccounts(s: State, p: Addr)
    requires Accounted(s) && p in s.pointers
    ensures Accounted(ErasePointer(s, p))
  {
    hide Sum;
    TotalErases(s.pointers, Bytes(), s.used, p);
    TotalErases(s.pointers, BytesOf(false), s.host, p);
    TotalErases(s.pointers, BytesOf(true), s.dma, p);
  }

  lemma WrapMoves(a: nat, b: nat)
    requires b < WORD
    ensures Wrap(a + b) == Wrap(a) <==> b == 0
  {
  }

  lemma TotalReinserts(m: map<Addr, PointerInfo>, weight: PointerInfo -> nat, total: nat, p: Addr, info: PointerInfo)
    requires p in m && total == Wrap(Sum(m, weight)) && weight(m[p]) < WORD
    ensures Wrap(total + weight(info)) == Wrap(Sum(m[p := info], weight)) <==> weight(m[p]) == 0
    ensures weight(info) == 0 ==> (total == Wrap(Sum(m[p := info], weight)) <==> weight(m[p]) == 0)
  {
    hide Sum, Wrap;
    SumInsert(m, weight, p, info);
    WrapAdds(Sum(m, weight), weight(info));
    WrapMoves(Sum(m[p := info], weight), weight(m[p]));
  }

  /** A second Add of a tracked pointer keeps the totals right exactly if the first one counted no bytes. */
  lemma ReinsertAccounts(s: State, p: Addr, info: PointerInfo)
    requires Accounted(s) && p in s.pointers && s.pointers[p].size < WORD
    ensures Accounted(InsertPointer(s, p, info)) <==> s.pointers[p].size == 0
  {
    hide Sum;
    TotalReinserts(s.pointers, Bytes(), s.used, p, info);
    TotalReinserts(s.pointers, BytesOf(false), s.host, p, info);
    TotalReinserts(s.pointers, BytesOf(true), s.dma, p, info);
  }

  /** Recording one pointer again and again, as failed allocations record the null pointer. */
  function InsertEach(s: State, p: Addr, infos: seq<PointerInfo>): State {
    if infos == [] then s else InsertPointer(InsertEach(s, p, infos[..|infos| - 1]), p, infos[|infos| - 1])
  }

  function Total(infos: seq<PointerInfo>, weight: PointerInfo -> nat): nat {
    if infos == [] then 0 else Total(infos[..|infos| - 1], weight) + weight(infos[|infos| - 1])
  }

  /** The totals after `s` have grown by what has been added. */
  ghost predicate Counts(s: State, s': State, all: nat, host: nat, dma: nat) {
    s'.used == Wrap(s.used + all) && s'.host == Wrap(s.host + host) && s'.dma == Wrap(s.dma + dma)
  }

  lemma InsertCounts(s: State, s': State, all: nat, host: nat, dma: nat, p: Addr, info: PointerInfo)
    requires Counts(s, s', all, host, dma)
    ensures Counts(s, InsertPointer(s', p, info), all + Bytes()(info), host + BytesOf(false)(info), dma + BytesOf(true)(info))
  {
    hide Wrap;
    WrapAdds(s.used + all, info.size);
    WrapAdds(s.host + host, info.size);
    WrapAdds(s.dma + dma, info.size);
  }

  /** Every one of them is counted, and only the last is tracked. */
  lemma {:induction false} EachIsCounted(s: State, p: Addr, infos: seq<PointerInfo>)
    requires s.used < WORD && s.host < WORD && s.dma < WORD
    ensures InsertEach(s, p, infos).pointers == if infos == [] then s.pointers else s.pointers[p := infos[|infos| - 1]]
    ensures Counts(s, InsertEach(s, p, infos), Total(infos, Bytes()), Total(infos, BytesOf(false)), Total(infos, BytesOf(true)))
  {
    hide Bytes, BytesOf;
    if infos != [] {
      var front, last := infos[..|infos| - 1], infos[|infos| - 1];
      EachIsCounted(s, p, front);
      hide Counts;
      InsertCounts(s, InsertEach(s, p, front), Total(front, Bytes()), Total(front, BytesOf(false)), Total(front, BytesOf(true)), p, last);
    }
  }

  lemma WrapSame(a: nat, b: nat)
    ensures Wrap(a + b) == Wrap(a) <==> Wrap(b) == 0
  {
  }

  /** One total is right exactly if what is no longer tracked adds up to nothing. */
  lemma TotalOfEach(m: map<Addr, PointerInfo>, weight: PointerInfo -> nat, total: nat, p: Addr, infos: seq<PointerInfo>)
    requires p !in m && infos != [] && total == Wrap(Sum(m, weight))
    ensures Wrap(total + Total(infos, weight)) == Wrap(Sum(m[p := infos[|infos| - 1]], weight)) <==>
              Wrap(Total(infos[..|infos| - 1], weight)) == 0
  {
    hide Sum, Wrap;
    var front, last := infos[..|infos| - 1], infos[|infos| - 1];
    SumFresh(m, weight, p, last);
    WrapAdds(Sum(m, weight), Total(infos, weight));
    WrapSame(Sum(m, weight) + weight(last), Total(front, weight));
  }

  lemma {:induction false} TotalSplits(infos: seq<PointerInfo>)
    ensures Total(infos, Bytes()) == Total(infos, BytesOf(false)) + Total(infos, BytesOf(true))
    ensures Total(infos, Bytes()) == 0 <==> forall i :: 0 <= i < |infos| ==> infos[i].size == 0
  {
    if infos != [] {
      TotalSplits(infos[..|infos| - 1]);
    }
  }

  /** Failed allocations are all recorded under the null pointer. After any number of them the totals are right if and only
      if the sizes of all but the last add up to nothing modulo the word: as long as they fit a word, if they are all 0. */
  lemma FailedAllocations(s: State, infos: seq<PointerInfo>)
    requires Accounted(s) && 0 !in s.pointers && infos != []
    ensures var lost := infos[..|infos| - 1];
            && (Accounted(InsertEach(s, 0, infos)) <==>
                  Wrap(Total(lost, BytesOf(false))) == 0 && Wrap(Total(lost, BytesOf(true))) == 0)
            && (Total(lost, Bytes()) < WORD ==>
                  (Accounted(InsertEach(s, 0, infos)) <==> forall i :: 0 <= i < |lost| ==> lost[i].size == 0))
  {
    hide Total, InsertEach, Accounted, Wrap;
    EachAccounts(s, 0, infos);
    LostIsNothing(infos[..|infos| - 1]);
  }

  lemma EachAccounts(s: State, p: Addr, infos: seq<PointerInfo>)
    requires Accounted(s) && p !in s.pointers && infos != []
    ensures var lost := infos[..|infos| - 1];
            Accounted(InsertEach(s, p, infos)) <==>
              Wrap(Total(lost, Bytes())) == 0 && Wrap(Total(lost, BytesOf(false))) == 0 && Wrap(Total(lost, BytesOf(true))) == 0
  {
    hide Total, InsertEach, Sum, Bytes, BytesOf;
    EachIsCounted(s, p, infos);
    hide Wrap;
    TotalOfEach(s.pointers, Bytes(), s.used, p, infos);
    TotalOfEach(s.pointers, BytesOf(false), s.host, p, infos);
    TotalOfEach(s.pointers, BytesOf(true), s.dma, p, infos);
  }

  lemma LostIsNothing(lost: seq<PointerInfo>)
    ensures Wrap(Total(lost, BytesOf(false))) == 0 && Wrap(Total(lost, BytesOf(true))) == 0 ==> Wrap(Total(lost, Bytes())) == 0
    ensures Total(lost, Bytes()) < WORD ==>
              (Wrap(Total(lost, BytesOf(false))) == 0 && Wrap(Total(lost, BytesOf(true))) == 0
               <==> forall i :: 0 <= i < |lost| ==> lost[i].size == 0)
  {
    hide Total, Wrap;
    TotalSplits(lost);
    WrapSame(Total(lost, BytesOf(false)), Total(lost, BytesOf(true)));
    if Total(lost, Bytes()) < WORD {
      WrapSmall(Total(lost, BytesOf(false)));
      WrapSmall(Total(lost, BytesOf(true)));
    }
  }

  lemma WrapSmall(a: nat)
    requires a < WORD
    ensures Wrap(a) == a
  {
  }

  lemma NewStackIsIndexed(s: State, u: Unwound)
    requires Indexed(s) && u.Frames? && u.frames !in s.keyToIndex
    ensures Indexed(AddBacktrace(s, u).0)
  {
  }

  lemma KnownStackIsIndexed(s: State, u: Unwound)
    requires Indexed(s) && u.Frames? && u.frames in s.keyToIndex
    ensures s.keyToIndex[u.frames] in s.frames && s.frames[s.keyToIndex[u.frames]].frames == u.frames
    ensures Indexed(AddBacktrace(s, u).0)
  {
  }

  lemma AddBacktraceKeepsIndex(s: State, u: Unwound)
    requires Indexed(s)
    ensures var (s', index) := AddBacktrace(s, u);
            && Indexed(s') && s'.pointers == s.pointers
            && (u.Frames? <==> index > EMPTY_INDEX)
            && (u.Frames? ==> index in s'.frames && s'.frames[index].frames == u.frames)
            && (u.Frames? && u.frames !in s.keyToIndex ==> index == s.curIndex && s'.infos[index] == u.info)
            && (forall i :: i in s.infos ==> i in s'.infos && s'.infos[i] == s.infos[i])
            && (forall i :: References(s', i) == References(s, i) + (if u.Frames? && i == index then 1 else 0))
            && (forall i :: i in s.frames ==> i in s'.frames && s'.frames[i].frames == s.frames[i].frames)
  {
    if u.Frames? {
      assert s.curIndex > EMPTY_INDEX && s.infos.Keys == s.frames.Keys && s.curIndex !in s.frames;
      if u.frames in s.keyToIndex {
        KnownStackIsIndexed(s, u);
        assert s.keyToIndex[u.frames] > EMPTY_INDEX;
      } else {
        NewStackIsIndexed(s, u);
      }
      hide Indexed;
    }
  }

  lemma RemoveBacktraceKeepsIndex(s: State, index: nat)
    requires Indexed(s)
    ensures var s' := RemoveBacktrace(s, index);
            && Indexed(s') && s'.pointers == s.pointers
            && (forall i :: References(s', i) == if i == index && i in s.frames then References(s, i) - 1 else References(s, i))
            && (forall i :: i in s'.frames ==> i in s.frames && s'.frames[i].frames == s.frames[i].frames)
  {
  }
}
