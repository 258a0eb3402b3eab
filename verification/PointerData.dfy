/** The allocation tracker: the object whose fields the locked sections update. */
module PointerData {
  import opened MapSums
  import opened TrackerState
  import opened PeakList

  datatype Config = Config(backtrace: bool, specificSizes: bool, minSize: nat, maxSize: nat,
                           recordPeak: bool, dumpPeak: nat)

  predicate ShouldBacktraceAllocSize(config: Config, size: nat) {
    !config.specificSizes || config.minSize <= size <= config.maxSize
  }

  /** What AddBacktrace makes of an allocation: the stack is unwound only when the options ask for it. */
  function Captured(config: Config, u: Unwound, size: nat): Unwound {
    if ShouldBacktraceAllocSize(config, size) && config.backtrace then u else NoFrames
  }

  /** A stack is recorded if and only if stacks are asked for, the size is one of those asked for, and unwinding gave frames;
      an allocation that is not to be recorded at all is one for which unwinding would have been done and said so. */
  lemma StackIsRecordedIff(s: State, config: Config, u: Unwound, size: nat)
    requires Indexed(s)
    ensures var (s', index) := AddBacktrace(s, Captured(config, u, size));
            var asked := config.backtrace && (config.specificSizes ==> config.minSize <= size && size <= config.maxSize);
            && (index > EMPTY_INDEX <==> asked && u.Frames?)
            && (index == EXIT_INDEX <==> asked && u.ExitFunction?)
            && (index <= EMPTY_INDEX ==> s' == s)
            && (index > EMPTY_INDEX ==> index in s'.frames && s'.frames[index].frames == u.frames)
  {
    AddBacktraceKeepsIndex(s, Captured(config, u, size));
  }

  predicate ByTime(a: ListInfo, b: ListInfo) {
    a.time < b.time
  }

  function HostBytes(list: seq<ListInfo>, dma: bool): nat {
    if list == [] then 0
    else HostBytes(list[1..], dma) + if list[0].memType.DMA? == dma then list[0].size * list[0].num else 0
  }

  /** The merge of the sorted lines of what is tracked. */
  ghost predicate IsUniqueList(s: State, sorted: seq<ListInfo>, merged: seq<ListInfo>)
    requires LookupsHit(s)
  {
    ListOf(s, sorted) && InOrder(sorted, SizeOrder) && merged == Merged(sorted)
  }

  class PointerData {
    const config: Config
    // The order in which iterating over a map meets its keys.
    const iterate: map<Addr, PointerInfo> -> seq<Addr>

    var pointers: map<Addr, PointerInfo>
    var keyToIndex: map<Stack, nat>
    var frames: map<nat, FrameInfo>
    var infos: map<nat, seq<nat>>
    var curIndex: nat
    var used: nat
    var host: nat
    var dma: nat
    var peakTot: nat
    var peakHost: nat
    var peakDma: nat
    var peakList: seq<ListInfo>

    function Abs(): State
      reads this
    {
      State(pointers, keyToIndex, frames, infos, curIndex, used, host, dma, peakTot, peakHost, peakDma)
    }

    ghost predicate Iterates() {
      forall m :: IsOrderOf(iterate(m), m.Keys)
    }

    constructor Initialize(config: Config, iterate: map<Addr, PointerInfo> -> seq<Addr>)
      ensures Abs() == INITIAL && peakList == [] && this.config == config && this.iterate == iterate
    {
      this.config, this.iterate := config, iterate;
      pointers, keyToIndex, frames, infos, peakList := map[], map[], map[], map[], [];
      curIndex := EMPTY_INDEX + 1;
      used, host, dma, peakTot, peakHost, peakDma := 0, 0, 0, 0, 0, 0;
    }

    /** Under the frame lock. */
    method AddBacktrace(u: Unwound, size: nat) returns (index: nat)
      requires Indexed(Abs())
      modifies `keyToIndex, `frames, `infos, `curIndex
      ensures (Abs(), index) == TrackerState.AddBacktrace(old(Abs()), Captured(config, u, size))
    {
      if !ShouldBacktraceAllocSize(config, size) {
        return EMPTY_INDEX;
      }
      if !config.backtrace {
        return EMPTY_INDEX;
      }
      match u
      case ExitFunction => return EXIT_INDEX;
      case NoFrames => return EMPTY_INDEX;
      case Frames(stack, info) =>
        if stack !in keyToIndex {
          index := curIndex;
          curIndex := curIndex + 1;
          keyToIndex := keyToIndex[stack := index];
          frames := frames[index := FrameInfo(1, stack)];
          infos := infos[index := info];
        } else {
          index := keyToIndex[stack];
          frames := frames[index := frames[index].(references := frames[index].references + 1)];
        }
    }

    /** The totals and peaks of Add; `peaked` says whether the bytes in use reached a new peak. */
    method CountBytes(size: nat, memType: MemType) returns (peaked: bool)
      modifies `used, `host, `dma, `peakTot, `peakHost, `peakDma
      ensures forall p, info: PointerInfo :: info.size == size && info.memType == memType ==>
                Abs().(pointers := pointers[p := info]) == InsertPointer(old(Abs()), p, info)
      ensures peaked <==> old(peakTot) < used
    {
      used := Wrap(used + size);
      if memType.DMA? {
        dma := Wrap(dma + size);
        if dma > peakDma {
          peakDma := dma;
        }
      } else {
        host := Wrap(host + size);
        if host > peakHost {
          peakHost := host;
        }
      }
      peaked := peakTot < used;
      if peaked {
        peakTot := used;
      }
    }

    /** Under the pointer lock, and at a recorded peak under the frame lock as well. */
    method AddPointer(p: Addr, info: PointerInfo)
      requires Iterates() && LookupsHit(Abs())
      requires HasStack(info) ==> info.hashIndex in frames && info.hashIndex in infos
      modifies `pointers, `used, `host, `dma, `peakTot, `peakHost, `peakDma, `peakList
      ensures Abs() == InsertPointer(old(Abs()), p, info) && LookupsHit(Abs())
      ensures if config.recordPeak && old(peakTot) < used && peakTot > config.dumpPeak then
                && (exists sorted :: IsUniqueList(Abs(), sorted, peakList))
                && TotalCount(peakList) == Sum(pointers, Listed()) && TotalBytes(peakList) == Sum(pointers, ListedBytes())
                && (KeysDiffer(peakList) <==> forall a, b, c :: !Splits(Abs(), a, b, c))
              else peakList == old(peakList)
    {
      hide Sum, Wrap, Splits;
      var peaked := CountBytes(info.size, info.memType);
      pointers := pointers[p := info];
      if peaked && config.recordPeak && peakTot > config.dumpPeak {
        ghost var sorted;
        peakList, sorted := GetUniqueList(Abs(), iterate(pointers));
        assert IsUniqueList(Abs(), sorted, peakList);
      }
    }

    /** Under the pointer lock: 0 when the pointer is not tracked. */
    method RemovePointer(p: Addr) returns (index: nat)
      modifies `pointers, `used, `host, `dma
      ensures Abs() == if p in old(pointers) then ErasePointer(old(Abs()), p) else old(Abs())
      ensures index == if p in old(pointers) then old(pointers)[p].hashIndex else EXIT_INDEX
    {
      if p !in pointers {
        return EXIT_INDEX;
      }
      var info := pointers[p];
      used := Wrap(used - info.size);
      if info.memType.DMA? {
        dma := Wrap(dma - info.size);
      } else {
        host := Wrap(host - info.size);
      }
      index := info.hashIndex;
      pointers := pointers - {p};
    }

    /** Under the frame lock. */
    method RemoveBacktrace(index: nat)
      modifies `keyToIndex, `frames, `infos
      ensures Abs() == TrackerState.RemoveBacktrace(old(Abs()), index)
    {
      if index <= EMPTY_INDEX {
        return;
      }
      if index !in frames {
        return;
      }
      var frame := frames[index];
      frames := frames[index := frame.(references := Decremented(frame.references))];
      if frames[index].references == 0 {
        keyToIndex := keyToIndex - {frame.frames};
        frames := frames - {index};
        infos := infos - {index};
      }
    }

    /** The lines and totals of a dump. The recorded peak is given away by it. */
    method DumpLive() returns (list: seq<ListInfo>, hostUse: nat, dmaUse: nat)
      requires Iterates() && LookupsHit(Abs())
      modifies `peakList
      ensures peakList == []
      ensures hostUse == HostBytes(list, false) && dmaUse == HostBytes(list, true)
      ensures hostUse + dmaUse == TotalBytes(list)
      ensures config.recordPeak ==> list == old(peakList)
      ensures !config.recordPeak ==> ListOf(Abs(), list) && (forall i :: 0 < i < |list| ==> list[i - 1].time <= list[i].time)
      ensures !config.recordPeak ==> hostUse == Sum(pointers, ListedBytesOf(false)) && dmaUse == Sum(pointers, ListedBytesOf(true))
      ensures !config.recordPeak ==> hostUse + dmaUse == Sum(pointers, ListedBytes())
    {
      hide Sum, ListOf, LookupsHit;
      list := peakList;
      peakList := [];
      if !config.recordPeak {
        list := GetList(Abs(), iterate(pointers), true, ByTime);
        ListTotals(Abs(), list);
        HostTotals(Abs(), list, false);
        HostTotals(Abs(), list, true);
      }
      hostUse, dmaUse := AddUp(list);
      BytesSplit(list);
    }
  }

  /** The bytes of the tracked pointers with a stack that are of one kind of memory, as they are listed. */
  function ListedBytesOf(dma: bool): PointerInfo -> nat {
    (i: PointerInfo) => if HasStack(i) && i.memType.DMA? == dma then i.size % 0x8000_0000 else 0
  }

  lemma {:induction false} HostTotals(s: State, list: seq<ListInfo>, dma: bool)
    requires LookupsHit(s) && ListOf(s, list)
    ensures HostBytes(list, dma) == Sum(s.pointers, ListedBytesOf(dma))
    decreases |list|
  {
    hide Sum;
    if list == [] {
      SumZero(s.pointers, ListedBytesOf(dma));
    } else {
      var p := list[0].pointer;
      assert list[0] in list;
      ListOfTail(s, list);
      HostTotals(s.(pointers := s.pointers - {p}), list[1..], dma);
      SumWithout(s.pointers, ListedBytesOf(dma), p);
    }
  }

  /** The totals of the lines, by the kind of memory. */
  method AddUp(list: seq<ListInfo>) returns (hostUse: nat, dmaUse: nat)
    ensures hostUse == HostBytes(list, false) && dmaUse == HostBytes(list, true)
  {
    hostUse, dmaUse := 0, 0;
    for i := 0 to |list|
      invariant hostUse + HostBytes(list[i..], false) == HostBytes(list, false)
      invariant dmaUse + HostBytes(list[i..], true) == HostBytes(list, true)
    {
      assert list[i..][1..] == list[i + 1..];
      var size := list[i].size * list[i].num;
      if list[i].memType.DMA? {
        dmaUse := dmaUse + size;
      } else {
        hostUse := hostUse + size;
      }
    }
  }

  lemma {:induction false} BytesSplit(list: seq<ListInfo>)
    ensures HostBytes(list, false) + HostBytes(list, true) == TotalBytes(list)
  {
    if list != [] {
      BytesSplit(list[1..]);
    }
  }
}
