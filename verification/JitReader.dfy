/** The lock-free reader of the JIT entry list (the GDB JIT Compilation Interface with Android's seqlocks).

    The reader takes its memory reads one at a time, at increasing instants of a writer's run. How
    long it waits before each read, and which reads fail, are parameters, so that what is proved here
    holds in every interleaving. */
module JitReader {
  import opened JitWriter

  /** A word the reader may read. */
  datatype Field = Head | Next(a: Addr) | SymAddr(a: Addr) | SymSize(a: Addr) | Seqlock(a: Addr)

  predicate Mapped(w: World, f: Field) {
    f.Head? || f.a in w.entries
  }

  function Word(w: World, f: Field): nat
    requires Mapped(w, f)
  {
    match f
    case Head => w.head
    case Next(a) => w.entries[a].next
    case SymAddr(a) => w.entries[a].symAddr
    case SymSize(a) => w.entries[a].symSize
    case Seqlock(a) => w.entries[a].seqlock
  }

  /** At instant `t` the field held the address of `u`, and the entry there had the seqlock of `u`, marked live. */
  ghost predicate PointedTo(world: Timeline, t: nat, f: Field, u: Uid) {
    && Mapped(world(t), f) && Word(world(t), f) == u.address
    && (u.address != 0 ==>
          u.address in world(t).entries && world(t).entries[u.address].seqlock == u.seqlock && Even(u.seqlock))
  }

  /** Every snapshot entry was live at some instant from `lo` to `hi`, and is the file it had then. */
  ghost predicate Sound(world: Timeline, snapshot: map<Uid, Image>, seen: map<Uid, nat>, lo: nat, hi: nat) {
    && seen.Keys == snapshot.Keys
    && forall u :: u in snapshot ==> SeenAt(world, u, snapshot[u], seen[u]) && lo <= seen[u] <= hi
  }

  ghost predicate SeenAt(world: Timeline, u: Uid, image: Image, t: nat) {
    LiveUid(world(t), u) && Loadable(world(t), u.address) && ImageOf(world(t), u.address) == image
  }

  /** Every loadable entry live at `hi` whose birth is from `rank` up to but not including `bound` is in the snapshot. */
  ghost predicate Covers(world: Timeline, snapshot: map<Uid, Image>, rank: nat, bound: nat, hi: nat) {
    forall a :: Live(world(hi), a) && rank <= world(hi).birth[a] < bound && Loadable(world(hi), a) ==>
                  UidAt(world(hi), a) in snapshot
  }

  ghost predicate BornBefore(world: Timeline, seen: map<Uid, nat>, bound: nat) {
    forall u :: u in seen ==> u.address in world(seen[u]).birth && world(seen[u]).birth[u.address] < bound
  }

  /** The birth below which nothing was visited yet, when the walk is about to visit `u`. */
  ghost function Rank(world: Timeline, u: Uid, t: nat): nat {
    if u.address != 0 && u.address in world(t).birth then world(t).birth[u.address] + 1 else 0
  }

  /** The field was read between two reads of the seqlock that agree: both were so at that one instant. */
  lemma SeqlockSandwich(world: Timeline, a: Addr, seqlock: nat, t0: nat, t1: nat, t2: nat)
    requires IsRun(world) && t0 <= t1 <= t2
    requires a in world(t0).entries && world(t0).entries[a].seqlock == seqlock
    requires a in world(t2).entries && world(t2).entries[a].seqlock == seqlock
    ensures a in world(t1).entries && world(t1).entries[a].seqlock == seqlock
  {
    RunLater(world, t0, t1);
    RunLater(world, t1, t2);
  }

  /** An entry that keeps its seqlock stays the same live incarnation, with the same file. */
  lemma StaysLive(world: Timeline, u: Uid, t0: nat, t1: nat, t2: nat)
    requires IsRun(world) && t0 <= t1 <= t2
    requires LiveUid(world(t0), u)
    requires u.address in world(t2).entries && world(t2).entries[u.address].seqlock == u.seqlock
    ensures LiveUid(world(t1), u) && SameIncarnation(world(t0), world(t1), u.address)
  {
    SeqlockSandwich(world, u.address, u.seqlock, t0, t1, t2);
    RunLater(world, t0, t1);
  }

  /** The two words read from an entry belong to one incarnation, whose seqlock is checked afterwards. */
  lemma ReadsAgree(world: Timeline, u: Uid, start: nat, addrRead: nat, sizeRead: nat, checked: nat)
    requires IsRun(world) && start <= addrRead <= sizeRead <= checked && LiveUid(world(start), u)
    requires u.address in world(checked).entries && world(checked).entries[u.address].seqlock == u.seqlock
    ensures u.address in world(addrRead).entries && u.address in world(sizeRead).entries && LiveUid(world(checked), u)
    ensures world(checked).entries[u.address].symAddr == world(addrRead).entries[u.address].symAddr
    ensures world(checked).entries[u.address].symSize == world(sizeRead).entries[u.address].symSize
  {
    StaysLive(world, u, start, addrRead, checked);
    StaysLive(world, u, start, sizeRead, checked);
    StaysLive(world, u, start, checked, checked);
  }

  /** A file loaded between two checks of the seqlock is the file of that incarnation. */
  lemma LoadAgrees(world: Timeline, u: Uid, checked: nat, at: nat, rechecked: nat, file: seq<Image>)
    requires IsRun(world) && checked <= at <= rechecked && LiveUid(world(checked), u)
    requires u.address in world(rechecked).entries && world(rechecked).entries[u.address].seqlock == u.seqlock
    requires var e := world(checked).entries[u.address];
      e.symAddr != 0 && file == if (e.symAddr, e.symSize) in world(at).images
                                then [world(at).images[(e.symAddr, e.symSize)]] else []
    ensures LiveUid(world(at), u)
    ensures |file| == if Loadable(world(at), u.address) then 1 else 0
    ensures |file| == 1 ==> SeenAt(world, u, file[0], at)
  {
    StaysLive(world, u, checked, at, rechecked);
  }

  lemma StillSeen(world: Timeline, u: Uid, image: Image, t0: nat, t1: nat)
    requires IsRun(world) && t0 <= t1 && SeenAt(world, u, image, t0) && LiveUid(world(t1), u)
    ensures SeenAt(world, u, image, t1)
  {
    RunLater(world, t0, t1);
    assert SameIncarnation(world(t0), world(t1), u.address);
  }

  lemma CoversLater(world: Timeline, snapshot: map<Uid, Image>, rank: nat, bound: nat, hi: nat, hi': nat)
    requires IsRun(world) && bound <= world(hi).clock && hi <= hi' && Covers(world, snapshot, rank, bound, hi)
    ensures Covers(world, snapshot, rank, bound, hi')
  {
    RunLater(world, hi, hi');
    forall a | Live(world(hi'), a) && rank <= world(hi').birth[a] < bound && Loadable(world(hi'), a)
      ensures UidAt(world(hi'), a) in snapshot
    {
      assert SameIncarnation(world(hi), world(hi'), a);
    }
  }

  /** On a well-formed list the field after `u` leads to the newest entry that is older than `u`. */
  lemma NextIsNewestOlder(w: World, a: Addr, i: nat)
    requires WellFormed(w) && a in w.chain
    requires i < |w.chain| && w.chain[i] == a
    ensures forall b :: b in w.chain && w.birth[b] < w.birth[a] ==>
                          i + 1 < |w.chain| && w.birth[b] <= w.birth[w.chain[i + 1]]
    ensures w.entries[a].next == ChainAt(w, i + 1)
    ensures forall b :: b in w.chain && w.birth[b] == w.birth[a] ==> b == a
  {
    assert PointsOn(w, i);
    forall b | b in w.chain
      ensures w.birth[b] < w.birth[a] ==> i + 1 < |w.chain| && w.birth[b] <= w.birth[w.chain[i + 1]]
      ensures w.birth[b] == w.birth[a] ==> b == a
    {
      var j :| 0 <= j < |w.chain| && w.chain[j] == b;
    }
  }

  /** The address a live entry (or the head) points to is on the list, hence live once its seqlock is seen even. */
  lemma PointedToIsLive(world: Timeline, t: nat, f: Field, u: Uid)
    requires IsRun(world) && PointedTo(world, t, f, u) && u.address != 0
    requires f.Head? || (f.Next? && Live(world(t), f.a))
    ensures LiveUid(world(t), u)
    ensures f.Next? ==> world(t).birth[u.address] < world(t).birth[f.a]
  {
    RunWellFormed(world, t);
    var w := world(t);
    if f.Head? {
      assert u.address == w.chain[0];
    } else {
      var i :| 0 <= i < |w.chain| && w.chain[i] == f.a;
      NextIsNewestOlder(w, f.a, i);
      assert w.chain[i + 1] == u.address;
    }
  }

  /** Everything on the list when the head is read is no newer than the entry it leads to. */
  lemma HeadCovers(world: Timeline, snapshot: map<Uid, Image>, u: Uid, head: nat)
    requires IsRun(world) && PointedTo(world, head, Head, u)
    ensures u.address != 0 ==> LiveUid(world(head), u) && world(head).birth[u.address] < world(head).clock
    ensures Covers(world, snapshot, Rank(world, u, head), world(head).clock, head)
  {
    RunWellFormed(world, head);
    if u.address != 0 {
      PointedToIsLive(world, head, Head, u);
    }
    var w := world(head);
    forall a | Live(w, a)
      ensures u.address != 0 && w.birth[a] <= w.birth[u.address]
    {
      var i :| 0 <= i < |w.chain| && w.chain[i] == a;
      assert w.chain[0] == w.head;
    }
  }

  /** One entry further: what is older than `u` and skipped by its pointer cannot be live any more. */
  lemma StepCovers(world: Timeline, snapshot: map<Uid, Image>, snapshot': map<Uid, Image>, u: Uid, next: Uid,
                   bound: nat, t: nat)
    requires IsRun(world) && LiveUid(world(t), u) && u.address != 0 && PointedTo(world, t, Next(u.address), next)
    requires Covers(world, snapshot, Rank(world, u, t), bound, t)
    requires (forall v :: v in snapshot ==> v in snapshot') && (Loadable(world(t), u.address) ==> u in snapshot')
    ensures next.address != 0 ==> LiveUid(world(t), next)
    ensures Rank(world, next, t) < Rank(world, u, t)
    ensures Covers(world, snapshot', Rank(world, next, t), bound, t)
  {
    var w := world(t);
    if next.address != 0 {
      PointedToIsLive(world, t, Next(u.address), next);
    }
    RunWellFormed(world, t);
    var i :| 0 <= i < |w.chain| && w.chain[i] == u.address;
    NextIsNewestOlder(w, u.address, i);
    forall a | Live(w, a) && Rank(world, next, t) <= w.birth[a] < bound && Loadable(w, a)
      ensures UidAt(w, a) in snapshot'
    {
      if w.birth[a] > w.birth[u.address] {
        assert UidAt(w, a) in snapshot;
      } else if w.birth[a] < w.birth[u.address] {
        assert false;
      } else {
        assert a == u.address;
      }
    }
  }

  /** A live entry that an earlier pass recorded: that pass recorded everything older as well. */
  lemma CachedCovers(world: Timeline, old_: map<Uid, Image>, seen: map<Uid, nat>, snapshot: map<Uid, Image>,
                     u: Uid, before: nat, bound: nat, t: nat)
    requires IsRun(world) && u in seen && seen[u] <= t && BornBefore(world, seen, before)
    requires LiveUid(world(seen[u]), u) && LiveUid(world(t), u) && u.address != 0
    requires Covers(world, old_, 0, before, t)
    requires forall v :: v in old_ ==> v in snapshot
    requires Covers(world, snapshot, Rank(world, u, t), bound, t)
    ensures Covers(world, snapshot, 0, bound, t)
  {
    RunLater(world, seen[u], t);
    assert SameIncarnation(world(seen[u]), world(t), u.address);
    forall a | Live(world(t), a) && world(t).birth[a] < bound && Loadable(world(t), a)
      ensures UidAt(world(t), a) in snapshot
    {
      if world(t).birth[a] <= world(t).birth[u.address] {
        assert UidAt(world(t), a) in old_;
      }
    }
  }

  /** What passes up to now have recorded: sound, and complete below `bound`. */
  ghost predicate Recorded(world: Timeline, snapshot: map<Uid, Image>, was: map<Uid, nat>, lo: nat, bound: nat, hi: nat) {
    && bound <= world(hi).clock
    && Sound(world, snapshot, was, lo, hi) && BornBefore(world, was, bound)
    && Covers(world, snapshot, 0, bound, hi)
  }

  /** In the middle of a pass, about to visit `u`, to which a pointer led at instant `at`. */
  ghost predicate Walking(world: Timeline, snapshot: map<Uid, Image>, was: map<Uid, nat>,
                          snapshot': map<Uid, Image>, was': map<Uid, nat>,
                          u: Uid, at: nat, lo: nat, before: nat, bound: nat, hi: nat) {
    && at <= hi && before <= bound <= world(at).clock
    && Sound(world, snapshot', was', lo, hi) && BornBefore(world, was', bound)
    && (u.address != 0 ==> LiveUid(world(at), u) && world(at).birth[u.address] < bound)
    && Covers(world, snapshot', Rank(world, u, at), bound, at)
    // What was recorded before this pass, and what this pass added: newer than `u`.
    && Covers(world, snapshot, 0, before, at)
    && Sound(world, snapshot, was, lo, at) && BornBefore(world, was, before)
    && Extends(snapshot, was, snapshot', was')
    && AddedAbove(world, snapshot, was', Rank(world, u, at))
  }

  ghost predicate Extends(snapshot: map<Uid, Image>, was: map<Uid, nat>, snapshot': map<Uid, Image>, was': map<Uid, nat>) {
    && (forall v :: v in snapshot ==> v in snapshot' && snapshot'[v] == snapshot[v])
    && (forall v :: v in was ==> v in was' && was'[v] == was[v])
  }

  ghost predicate AddedAbove(world: Timeline, snapshot: map<Uid, Image>, was': map<Uid, nat>, rank: nat) {
    forall v :: v in was' && v !in snapshot ==> rank < Rank(world, v, was'[v])
  }

  lemma WalkBegins(world: Timeline, snapshot: map<Uid, Image>, was: map<Uid, nat>, lo: nat, before: nat, start: nat,
                   u: Uid, head: nat, hi: nat)
    requires IsRun(world) && lo <= start <= head <= hi && Recorded(world, snapshot, was, lo, before, start)
    requires PointedTo(world, head, Head, u)
    ensures Walking(world, snapshot, was, snapshot, was, u, head, lo, before, world(head).clock, hi)
  {
    HeadCovers(world, snapshot, u, head);
    ClockGrows(world, start, head);
    CoversLater(world, snapshot, 0, before, start, head);
  }

  lemma WalkMeetsRecorded(world: Timeline, snapshot: map<Uid, Image>, was: map<Uid, nat>,
                          snapshot': map<Uid, Image>, was': map<Uid, nat>,
                          u: Uid, at: nat, lo: nat, before: nat, bound: nat, hi: nat)
    requires IsRun(world) && Walking(world, snapshot, was, snapshot', was', u, at, lo, before, bound, hi)
    requires u.address != 0 && u in snapshot'
    ensures Recorded(world, snapshot', was', lo, bound, hi)
  {
    SameRank(world, u, at, was'[u], snapshot'[u]);
    assert SeenAt(world, u, snapshot[u], was[u]);
    CachedCovers(world, snapshot, was, snapshot', u, before, bound, at);
    CoversLater(world, snapshot', 0, bound, at, hi);
    ClockGrows(world, at, hi);
  }

  /** An incarnation has one rank. */
  lemma SameRank(world: Timeline, u: Uid, t: nat, t': nat, image: Image)
    requires IsRun(world) && LiveUid(world(t), u) && SeenAt(world, u, image, t')
    ensures Rank(world, u, t) == Rank(world, u, t')
  {
    if t <= t' {
      RunLater(world, t, t');
      assert SameIncarnation(world(t), world(t'), u.address);
    } else {
      RunLater(world, t', t);
      assert SameIncarnation(world(t'), world(t), u.address);
    }
  }

  lemma SoundGrows(world: Timeline, snapshot: map<Uid, Image>, was: map<Uid, nat>, u: Uid, file: seq<Image>, t: nat,
                   lo: nat, hi: nat, hi': nat, snapshot': map<Uid, Image>, was': map<Uid, nat>)
    requires Sound(world, snapshot, was, lo, hi) && lo <= t <= hi' && hi <= hi' && |file| <= 1
    requires |file| == 1 ==> SeenAt(world, u, file[0], t)
    requires snapshot' == if |file| == 1 then snapshot[u := file[0]] else snapshot
    requires was' == if |file| == 1 then was[u := t] else was
    ensures Sound(world, snapshot', was', lo, hi')
  {
  }

  lemma AdditionsGrow(world: Timeline, snapshot: map<Uid, Image>, was: map<Uid, nat>,
                      snapshot': map<Uid, Image>, was': map<Uid, nat>, u: Uid, file: seq<Image>, t: nat,
                      snapshot'': map<Uid, Image>, was'': map<Uid, nat>, rank: nat, rank': nat, bound: nat)
    requires Extends(snapshot, was, snapshot', was') && AddedAbove(world, snapshot, was', rank)
    requires u !in snapshot' && u !in was' && BornBefore(world, was', bound) && rank' < rank <= bound
    requires |file| == 1 ==> Live(world(t), u.address) && Rank(world, u, t) == rank && u.address != 0
    requires snapshot'' == if |file| == 1 then snapshot'[u := file[0]] else snapshot'
    requires was'' == if |file| == 1 then was'[u := t] else was'
    ensures Extends(snapshot, was, snapshot'', was'') && AddedAbove(world, snapshot, was'', rank')
    ensures BornBefore(world, was'', bound)
  {
  }

  lemma WalkGoesOn(world: Timeline, snapshot: map<Uid, Image>, was: map<Uid, nat>,
                   snapshot': map<Uid, Image>, was': map<Uid, nat>,
                   u: Uid, at: nat, lo: nat, before: nat, bound: nat, hi: nat,
                   file: seq<Image>, next: Uid, seenAt: nat, nextAt: nat,
                   snapshot'': map<Uid, Image>, was'': map<Uid, nat>, hi': nat)
    requires IsRun(world) && Walking(world, snapshot, was, snapshot', was', u, at, lo, before, bound, hi)
    requires u.address != 0 && u !in snapshot' && lo <= hi <= seenAt <= nextAt <= hi' && |file| <= 1
    requires LiveUid(world(nextAt), u) && world(nextAt).birth[u.address] == world(at).birth[u.address]
    requires PointedTo(world, nextAt, Next(u.address), next)
    requires |file| == 1 ==> SeenAt(world, u, file[0], seenAt)
    requires Loadable(world(nextAt), u.address) ==> |file| == 1
    requires snapshot'' == if |file| == 1 then snapshot'[u := file[0]] else snapshot'
    requires was'' == if |file| == 1 then was'[u := seenAt] else was'
    ensures Rank(world, next, nextAt) < Rank(world, u, at)
    ensures Walking(world, snapshot, was, snapshot'', was'', next, nextAt, lo, before, bound, hi')
  {
    hide Covers, Extends, AddedAbove, BornBefore;
    ClockGrows(world, at, nextAt);
    CoversLater(world, snapshot', Rank(world, u, at), bound, at, nextAt);
    CoversLater(world, snapshot, 0, before, at, nextAt);
    StepCovers(world, snapshot', snapshot'', u, next, bound, nextAt);
    SoundGrows(world, snapshot', was', u, file, seenAt, lo, hi, hi', snapshot'', was'');
    if |file| == 1 {
      SameRank(world, u, nextAt, seenAt, file[0]);
    }
    AdditionsGrow(world, snapshot, was, snapshot', was', u, file, seenAt, snapshot'', was'',
                  Rank(world, u, at), Rank(world, next, nextAt), bound);
  }

  lemma WalkEnds(world: Timeline, snapshot: map<Uid, Image>, was: map<Uid, nat>,
                 snapshot': map<Uid, Image>, was': map<Uid, nat>,
                 u: Uid, at: nat, lo: nat, before: nat, bound: nat, hi: nat)
    requires IsRun(world) && Walking(world, snapshot, was, snapshot', was', u, at, lo, before, bound, hi)
    requires u.address == 0
    ensures Recorded(world, snapshot', was', lo, bound, hi)
  {
    ClockGrows(world, at, hi);
    CoversLater(world, snapshot', 0, bound, at, hi);
  }

  /** Nobody writes from `lo` on, no read fails, and no dead entry waits to be taken out. */
  ghost predicate Calm(world: Timeline, faults: nat -> bool, lo: nat) {
    && (forall n: nat :: !faults(n))
    && (forall t: nat :: lo <= t ==> world(t) == world(lo))
    && (forall a :: a in world(lo).chain ==> Live(world(lo), a))
  }

  /** The field is the head, or in an entry that is live. */
  ghost predicate OnList(w: World, f: Field) {
    f.Head? || (f.Next? && Live(w, f.a))
  }

  /** While nobody writes, a pointer on the list is mapped and leads nowhere or to a live entry. */
  lemma CalmPointer(world: Timeline, faults: nat -> bool, lo: nat, t: nat, f: Field)
    requires IsRun(world) && lo <= t
    ensures Calm(world, faults, lo) && OnList(world(lo), f) ==>
              var w := world(lo);
              && world(t) == w && Calm(world, faults, t) && OnList(world(t), f)
              && Mapped(w, f) && (Word(w, f) != 0 ==> Live(w, Word(w, f)))
  {
    if Calm(world, faults, lo) && OnList(world(lo), f) {
      RunWellFormed(world, lo);
      var w := world(lo);
      if f.Next? {
        var i :| 0 <= i < |w.chain| && w.chain[i] == f.a;
        assert PointsOn(w, i);
      }
    }
  }

  lemma CalmLater(world: Timeline, faults: nat -> bool, lo: nat, hi: nat, u: Uid)
    requires lo <= hi
    ensures Calm(world, faults, lo) ==> Calm(world, faults, hi)
    ensures Calm(world, faults, lo) && LiveUid(world(lo), u) ==> LiveUid(world(hi), u)
  {
  }

  /** While nobody writes, a pass finds nothing that an earlier pass of the same list has not recorded. */
  lemma CalmAddsNothing(world: Timeline, faults: nat -> bool, snapshot: map<Uid, Image>, bound: nat, lo: nat,
                        u: Uid, image: Image, t: nat)
    requires lo <= t && SeenAt(world, u, image, t)
    requires IsRun(world) && Covers(world, snapshot, 0, bound, lo)
    ensures Calm(world, faults, lo) && bound == world(lo).clock ==> u in snapshot
  {
    RunWellFormed(world, lo);
  }

  /** Every entry that is loadable and live at each instant from `head` to `hi` is in the snapshot. */
  ghost predicate HoldsAllThatStay(world: Timeline, snapshot: map<Uid, Image>, head: nat, hi: nat) {
    forall u :: LiveThroughout(world, u, head, hi) && Loadable(world(head), u.address) ==> u in snapshot
  }

  ghost predicate LiveThroughout(world: Timeline, u: Uid, lo: nat, hi: nat) {
    LiveUid(world(lo), u) && forall t :: lo <= t <= hi ==> LiveUid(world(t), u)
  }

  lemma CoversHoldsAllThatStay(world: Timeline, snapshot: map<Uid, Image>, head: nat, hi: nat)
    requires IsRun(world) && head <= hi && Covers(world, snapshot, 0, world(head).clock, hi)
    ensures HoldsAllThatStay(world, snapshot, head, hi)
  {
    RunWellFormed(world, head);
    RunLater(world, head, hi);
    forall u | LiveThroughout(world, u, head, hi) && Loadable(world(head), u.address)
      ensures u in snapshot
    {
      assert LiveUid(world(hi), u);
      assert SameIncarnation(world(head), world(hi), u.address);
    }
  }

  /** What a successful read leaves: see ReadUntilStable. */
  ghost predicate Snapshot(world: Timeline, snapshot: map<Uid, Image>, seen: map<Uid, nat>,
                           start: nat, previous: nat, head: nat, end: nat) {
    && start <= previous <= head <= end
    && Sound(world, snapshot, seen, start, end)
    && HoldsAllThatStay(world, snapshot, head, end)
    && (snapshot != map[] ==> Covers(world, snapshot, 0, world(previous).clock, head))
  }

  lemma SameSizeSameMap(m: map<Uid, Image>, m': map<Uid, Image>)
    requires |m| == |m'| && forall u :: u in m ==> u in m' && m'[u] == m[u]
    ensures m == m'
  {
    var extra := m'.Keys - m.Keys;
    assert m'.Keys == m.Keys + extra;
    assert |m'.Keys| == |m.Keys| + |extra|;
  }

  lemma StableIsSnapshot(world: Timeline, snapshot: map<Uid, Image>, was: map<Uid, nat>,
                         snapshot': map<Uid, Image>, was': map<Uid, nat>,
                         start: nat, before: nat, from: nat, previous: nat, head: nat, end: nat)
    requires IsRun(world) && start <= previous <= from <= head <= end
    requires Recorded(world, snapshot, was, start, before, from)
    requires snapshot == map[] || before == world(previous).clock
    requires Recorded(world, snapshot', was', start, world(head).clock, end)
    requires |snapshot| == |snapshot'| && forall u :: u in snapshot ==> u in snapshot' && snapshot'[u] == snapshot[u]
    ensures Snapshot(world, snapshot', was', start, previous, head, end) && Sound(world, snapshot', was', 0, end)
  {
    SameSizeSameMap(snapshot, snapshot');
    CoversLater(world, snapshot, 0, before, from, head);
    CoversHoldsAllThatStay(world, snapshot', head, end);
  }

  /** What ends an attempt to read the list: a read that fails; two reads that disagree, noticed at an instant; or passes
      each of which finds something new. */
  datatype Event = ReadFailed | Raced(at: nat) | Restless(found: nat)

  function Failure(race: bool, at: nat): Event {
    if race then Raced(at) else ReadFailed
  }

  /** An attempt that succeeds adds no event, and any other adds one. */
  ghost predicate Attempted(events: seq<Event>, events': seq<Event>, ok: bool, race: bool, at: nat) {
    if ok then events' == events
    else
      |events'| == |events| + 1 && events <= events'
      && var e := events'[|events|];
      if race then e == Raced(at) else e.ReadFailed? || (e.Restless? && e.found >= 16)
  }

  ghost predicate AllRaces(events: seq<Event>) {
    forall i :: 0 <= i < |events| ==> events[i].Raced?
  }

  /** What the attempts came to: those before the last one all raced, and the last one succeeded, or failed for another
      reason than a race, or was the sixteenth. */
  ghost predicate RetriedAfterRaces(events: seq<Event>, ok: bool) {
    if ok then |events| < 16 && AllRaces(events)
    else
      0 < |events| <= 16 && AllRaces(events[..|events| - 1])
      && var last := events[|events| - 1];
      if last.Raced? then |events| == 16 else last.ReadFailed? || last.found >= 16
  }

  /** After a race that is not the sixteenth, everything is calm. */
  ghost predicate CalmAfterRace(world: Timeline, faults: nat -> bool, events: seq<Event>) {
    exists i :: 0 <= i < |events| && i < 15 && events[i].Raced? && Calm(world, faults, events[i].at)
  }

  lemma AnotherRace(world: Timeline, faults: nat -> bool, races: seq<Event>, at: nat)
    requires AllRaces(races) && |races| < 16 && !CalmAfterRace(world, faults, races)
    ensures AllRaces(races + [Raced(at)])
    ensures CalmAfterRace(world, faults, races + [Raced(at)]) ==> |races| < 15 && Calm(world, faults, at)
  {
    hide Calm;
    var more := races + [Raced(at)];
    assert forall i :: 0 <= i < |races| ==> more[i] == races[i];
    if CalmAfterRace(world, faults, more) {
      var i :| 0 <= i < |more| && i < 15 && more[i].Raced? && Calm(world, faults, more[i].at);
    }
  }

  lemma LastAttempt(world: Timeline, faults: nat -> bool, races: seq<Event>, e: Event)
    requires AllRaces(races) && |races| < 16 && !CalmAfterRace(world, faults, races)
    requires e.ReadFailed? || (e.Restless? && e.found >= 16)
    ensures RetriedAfterRaces(races + [e], false) && !CalmAfterRace(world, faults, races + [e])
  {
    hide Calm;
    var more := races + [e];
    assert more[..|more| - 1] == races;
    assert forall i :: 0 <= i < |races| ==> more[i] == races[i];
  }

  lemma NoRaceYet(world: Timeline, faults: nat -> bool)
    ensures AllRaces([]) && !CalmAfterRace(world, faults, [])
  {
  }

  lemma SixteenRaces(races: seq<Event>)
    requires AllRaces(races) && |races| == 16
    ensures RetriedAfterRaces(races, false)
  {
  }

  lemma NothingRecorded(world: Timeline, now: nat)
    ensures Recorded(world, map[], map[], now, 0, now)
  {
  }

  lemma GrowsBySome(snapshot: map<Uid, Image>, snapshot': map<Uid, Image>)
    requires forall u :: u in snapshot ==> u in snapshot'
    requires |snapshot| != |snapshot'|
    ensures |snapshot| < |snapshot'|
  {
    var extra := snapshot'.Keys - snapshot.Keys;
    assert snapshot'.Keys == snapshot.Keys + extra;
    assert |snapshot'.Keys| == |snapshot.Keys| + |extra|;
  }

  const MAX_RACE_RETRIES := 16
  const MAX_HEAD_RETRIES := 16

  class DebugReader {
    // The writer's run, the wait before each read, and the reads that fail.
    const world: Timeline
    const gap: nat -> nat
    const faults: nat -> bool
    // Whether the descriptor has the Android fields.
    const hasSeqlock: bool

    var now: nat
    var count: nat
    var loaded: map<Uid, Image>
    ghost var seen: map<Uid, nat>
    // What has gone wrong so far.
    ghost var events: seq<Event>

    ghost predicate Valid()
      reads this
    {
      IsRun(world) && Sound(world, loaded, seen, 0, now)
    }

    constructor (world: Timeline, gap: nat -> nat, faults: nat -> bool, hasSeqlock: bool)
      requires IsRun(world)
      ensures Valid() && loaded == map[]
      ensures this.world == world && this.gap == gap && this.faults == faults && this.hasSeqlock == hasSeqlock
    {
      this.world, this.gap, this.faults, this.hasSeqlock := world, gap, faults, hasSeqlock;
      now, count, loaded, seen, events := 0, 0, map[], map[], [];
    }

    method ReadWord(f: Field) returns (ok: bool, v: nat)
      modifies `now, `count, `events
      ensures now == old(now + gap(count)) && count == old(count) + 1
      ensures ok <==> !faults(old(count)) && Mapped(world(now), f)
      ensures ok ==> v == Word(world(now), f)
      ensures events == old(events) + if ok then [] else [ReadFailed]
    {
      now := now + gap(count);
      ok := !faults(count) && Mapped(world(now), f);
      events := events + if ok then [] else [ReadFailed];
      v := if ok then Word(world(now), f) else 0;
      count := count + 1;
    }

    /** The entry's seqlock still is the one in `uid`. */
    method CheckSeqlock(uid: Uid) returns (ok: bool, race: bool)
      modifies `now, `count, `events
      ensures old(now) <= now
      ensures ok && hasSeqlock ==>
                uid.address in world(now).entries && world(now).entries[uid.address].seqlock == uid.seqlock
      ensures race ==> !ok && hasSeqlock
      ensures race ==> uid.address in world(now).entries && world(now).entries[uid.address].seqlock != uid.seqlock
      ensures !hasSeqlock ==> ok
      ensures Calm(world, faults, old(now)) && LiveUid(world(old(now)), uid) ==> ok
      ensures events == old(events) + if ok then [] else [Failure(race, now)]
    {
      if !hasSeqlock {
        return true, false;
      }
      var read, seqlock := ReadWord(Seqlock(uid.address));
      if !read {
        return false, false;
      }
      if seqlock != uid.seqlock {
        events := events + [Raced(now)];
        return false, true;
      }
      return true, false;
    }

    /** One read of a field (at instant `at`), and then of the seqlock of the entry it leads to. */
    method ReadPair(f: Field) returns (ok: bool, address: Addr, seqlock: nat, ghost at: nat)
      requires IsRun(world)
      modifies `now, `count, `events
      ensures old(now) <= at <= now
      ensures ok ==> Mapped(world(at), f) && Word(world(at), f) == address
      ensures ok && (!hasSeqlock || address == 0) ==> seqlock == 0
      ensures ok && hasSeqlock && address != 0 ==>
                address in world(now).entries && world(now).entries[address].seqlock == seqlock
      ensures Calm(world, faults, old(now)) && OnList(world(old(now)), f) ==> ok
      ensures events == old(events) + if ok then [] else [ReadFailed]
    {
      ghost var start := now;
      seqlock := 0;
      ok, address := ReadWord(f);
      at := now;
      if ok && hasSeqlock && address != 0 {
        ok, seqlock := ReadWord(Seqlock(address));
      }
      if !ok {
        CalmPointer(world, faults, start, now, f);
        CalmPointer(world, faults, start, at, f);
      }
    }

    /** Reads the address in a field and the seqlock found there, as of one instant `at`. */
    method ReadNextField(f: Field) returns (ok: bool, uid: Uid, race: bool, ghost at: nat)
      requires IsRun(world)
      modifies `now, `count, `events
      ensures old(now) <= at <= now
      ensures race ==> !ok && hasSeqlock
      ensures ok && hasSeqlock ==> PointedTo(world, at, f, uid)
      ensures ok && hasSeqlock && uid.address != 0 ==>
                uid.address in world(now).entries && world(now).entries[uid.address].seqlock == uid.seqlock
      ensures ok && !hasSeqlock ==> Mapped(world(at), f) && uid == Uid(Word(world(at), f), 0)
      ensures Calm(world, faults, old(now)) && OnList(world(old(now)), f) ==> ok
      ensures events == old(events) + if ok then [] else [Failure(race, now)]
    {
      ghost var start := now;
      uid, race := Uid(0, 0), false;
      var address, seqlock, address', seqlock';
      ok, address, seqlock, at := ReadPair(f);
      if !ok {
        return;
      }
      if !hasSeqlock {
        uid := Uid(address, 0);
        return;
      }
      ghost var locked := now;
      CalmPointer(world, faults, start, at, f);
      CalmPointer(world, faults, start, locked, f);
      ok, address', seqlock', at := ReadPair(f);
      if !ok {
        return;
      }
      if address != address' || seqlock != seqlock' || seqlock % 2 == 1 {
        CalmPointer(world, faults, start, at, f);
        CalmPointer(world, faults, start, now, f);
        events := events + [Raced(now)];
        return false, uid, true, at;
      }
      if address != 0 {
        SeqlockSandwich(world, address, seqlock, locked, at, now);
      }
      uid := Uid(address', seqlock');
    }

    /** The file at that place, if one can be loaded from there when it is read. */
    method Load(symAddr: nat, symSize: nat) returns (file: seq<Image>)
      modifies `now, `count
      ensures old(now) <= now
      ensures file == if (symAddr, symSize) in world(now).images then [world(now).images[(symAddr, symSize)]] else []
    {
      now, count := now + gap(count), count + 1;
      file := if (symAddr, symSize) in world(now).images then [world(now).images[(symAddr, symSize)]] else [];
    }

    /** Where the file of an entry is, as of the instant its seqlock is checked. */
    method ReadPlace(uid: Uid, ghost start: nat) returns (ok: bool, race: bool, symAddr: nat, symSize: nat)
      requires IsRun(world) && hasSeqlock && start <= now && LiveUid(world(start), uid)
      modifies `now, `count, `events
      ensures old(now) <= now
      ensures race ==> !ok
      ensures ok ==> LiveUid(world(now), uid)
      ensures ok ==> symAddr == world(now).entries[uid.address].symAddr && symSize == world(now).entries[uid.address].symSize
      ensures Calm(world, faults, start) ==> ok
      ensures events == old(events) + if ok then [] else [Failure(race, now)]
    {
      race, symAddr, symSize := false, 0, 0;
      CalmLater(world, faults, start, now, uid);
      ok, symAddr := ReadWord(SymAddr(uid.address));
      if !ok {
        return;
      }
      ghost var addrRead := now;
      ok, symSize := ReadWord(SymSize(uid.address));
      if !ok {
        return;
      }
      ghost var sizeRead := now;
      CalmLater(world, faults, start, now, uid);
      ok, race := CheckSeqlock(uid);
      if ok {
        ReadsAgree(world, uid, start, addrRead, sizeRead, now);
      }
    }

    /** Loads the file of an entry whose place was just read, unless it is loaded already. */
    method LoadFile(uid: Uid, symAddr: nat, symSize: nat) returns (ok: bool, race: bool, file: seq<Image>, ghost at: nat)
      requires Valid() && hasSeqlock && LiveUid(world(now), uid)
      requires symAddr == world(now).entries[uid.address].symAddr && symSize == world(now).entries[uid.address].symSize
      modifies `now, `count, `events
      ensures Valid() && old(now) <= at <= now && |file| <= 1
      ensures race ==> !ok
      ensures ok ==> LiveUid(world(at), uid) && (Loadable(world(at), uid.address) ==> |file| == 1)
      ensures ok && |file| == 1 ==> SeenAt(world, uid, file[0], at)
      ensures Calm(world, faults, old(now)) ==> ok
      ensures events == old(events) + if ok then [] else [Failure(race, now)]
    {
      ghost var start := now;
      ok, race, file, at := true, false, [], now;
      if uid in loaded {
        file := [loaded[uid]];
        StillSeen(world, uid, loaded[uid], seen[uid], now);
      } else if symAddr != 0 {
        var got := Load(symAddr, symSize);
        at := now;
        CalmLater(world, faults, start, now, uid);
        ok, race := CheckSeqlock(uid);
        if ok {
          LoadAgrees(world, uid, start, at, now, got);
          file := got;
        }
      }
    }

    /** Reads one entry: its file (as of `seenAt`), and the entry after it (as of `nextAt`). */
    method Visit(uid: Uid, ghost start: nat)
        returns (ok: bool, race: bool, file: seq<Image>, next: Uid, ghost seenAt: nat, ghost nextAt: nat)
      requires Valid() && hasSeqlock && start <= now && LiveUid(world(start), uid)
      modifies `now, `count, `events
      ensures Valid() && old(now) <= seenAt <= nextAt <= now && |file| <= 1
      ensures race ==> !ok
      ensures ok ==> LiveUid(world(nextAt), uid) && SameIncarnation(world(start), world(nextAt), uid.address)
      ensures ok ==> PointedTo(world, nextAt, Next(uid.address), next)
      ensures ok && |file| == 1 ==> SeenAt(world, uid, file[0], seenAt)
      ensures ok && Loadable(world(nextAt), uid.address) ==> |file| == 1
      ensures Calm(world, faults, start) ==> ok
      ensures events == old(events) + if ok then [] else [Failure(race, now)]
    {
      hide PointedTo, SeenAt, Loadable, LiveUid, SameIncarnation, Calm;
      file, next, seenAt, nextAt := [], Uid(0, 0), now, now;
      var symAddr, symSize;
      ok, race, symAddr, symSize := ReadPlace(uid, start);
      if !ok {
        return;
      }
      CalmLater(world, faults, start, now, uid);
      ok, race, file, seenAt := LoadFile(uid, symAddr, symSize);
      nextAt := now;
      if !ok {
        return;
      }
      CalmLater(world, faults, start, now, uid);
      ok, next, race, nextAt := ReadNextField(Next(uid.address));
      if !ok {
        return;
      }
      CalmLater(world, faults, start, now, uid);
      ok, race := CheckSeqlock(uid);
      if ok {
        StaysLive(world, uid, start, nextAt, now);
        StaysLive(world, uid, seenAt, nextAt, now);
      }
    }

    /** One pass: from the head down to an entry recorded before, or to the end of the list.

        `before` bounds the births of what was on the list when the previous pass read the head; `head` is when
        this one does. */
    method ReadNewEntries(snapshot: map<Uid, Image>, ghost was: map<Uid, nat>, ghost lo: nat, ghost before: nat)
        returns (ok: bool, race: bool, snapshot': map<Uid, Image>, ghost was': map<Uid, nat>, ghost head: nat)
      requires Valid() && hasSeqlock && lo <= now
      requires Recorded(world, snapshot, was, lo, before, now)
      modifies `now, `count, `events
      ensures Valid() && old(now) <= head <= now
      ensures race ==> !ok
      ensures ok ==> Recorded(world, snapshot', was', lo, world(head).clock, now)
      ensures ok ==> forall u :: u in snapshot ==> u in snapshot' && snapshot'[u] == snapshot[u]
      ensures Calm(world, faults, old(now)) ==> ok && (before == world(old(now)).clock ==> snapshot' == snapshot)
      ensures events == old(events) + if ok then [] else [Failure(race, now)]
    {
      snapshot', was', head := snapshot, was, now;
      ghost var start := now;
      var uid;
      ghost var at;
      ok, uid, race, at := ReadNextField(Head);
      if !ok {
        return;
      }
      head := at;
      ghost var bound := world(head).clock;
      WalkBegins(world, snapshot, was, lo, before, start, uid, head, now);
      while uid.address != 0
        invariant ok && !race && start <= head <= at <= now && Valid() && events == old(events)
        invariant Walking(world, snapshot, was, snapshot', was', uid, at, lo, before, bound, now)
        invariant Calm(world, faults, start) && before == world(start).clock ==> snapshot' == snapshot
        decreases Rank(world, uid, at)
      {
        if uid in snapshot' {
          WalkMeetsRecorded(world, snapshot, was, snapshot', was', uid, at, lo, before, bound, now);
          return;
        }
        ghost var seenAt, nextAt, last := 0, 0, now;
        var file, next;
        CalmLater(world, faults, start, at, uid);
        ok, race, file, next, seenAt, nextAt := Visit(uid, at);
        if !ok {
          return;
        }
        ghost var previous, previously := snapshot', was';
        if |file| == 1 {
          CalmAddsNothing(world, faults, snapshot, before, start, uid, file[0], seenAt);
          snapshot', was' := snapshot'[uid := file[0]], was'[uid := seenAt];
        }
        WalkGoesOn(world, snapshot, was, previous, previously, uid, at, lo, before, bound, last,
                   file, next, seenAt, nextAt, snapshot', was', now);
        uid, at := next, nextAt;
      }
      WalkEnds(world, snapshot, was, snapshot', was', uid, at, lo, before, bound, now);
    }

    /** Makes passes until one of them finds nothing new. */
    method Collect()
        returns (ok: bool, race: bool, snapshot: map<Uid, Image>, ghost was: map<Uid, nat>, ghost head: nat, ghost previous: nat)
      requires Valid() && hasSeqlock
      modifies `now, `count, `events
      ensures Valid() && old(now) <= now
      ensures race ==> !ok
      ensures ok ==> Snapshot(world, snapshot, was, old(now), previous, head, now)
      ensures Calm(world, faults, old(now)) ==> ok
      ensures Attempted(old(events), events, ok, race, now)
    {
      hide Snapshot, Recorded;
      ghost var start, before := now, 0;
      snapshot, was, head, previous := map[], map[], now, now;
      NothingRecorded(world, now);
      for i := 0 to MAX_HEAD_RETRIES
        invariant Valid() && start <= previous <= now && events == old(events) && |snapshot| >= i
        invariant Recorded(world, snapshot, was, start, before, now)
        invariant if i == 0 then snapshot == map[] && before == 0 else before == world(previous).clock
        invariant Calm(world, faults, start) ==> i <= 1 && Calm(world, faults, now) && world(now) == world(start)
        invariant Calm(world, faults, start) && i == 1 ==> before == world(start).clock
      {
        ghost var from := now;
        var snapshot';
        ghost var was';
        ok, race, snapshot', was', head := ReadNewEntries(snapshot, was, start, before);
        if !ok {
          return;
        }
        if |snapshot'| == |snapshot| {
          StableIsSnapshot(world, snapshot, was, snapshot', was', start, before, from, previous, head, now);
          snapshot, was := snapshot', was';
          return;
        }
        GrowsBySome(snapshot, snapshot');
        snapshot, was, before, previous := snapshot', was', world(head).clock, head;
      }
      ok, race := false, false;
      events := events + [Restless(|snapshot|)];
    }

    /** Collects a snapshot and keeps it. The result is exact for what stays on the list:

        everything in it was live during the call, everything that stays live from the last read of the head (at
        `head`) is in it, and of what was live at `head` it can lack only what was put on the list since the pass
        before (which read the head at `previous`) and died before the end. */
    method ReadUntilStable() returns (ok: bool, race: bool, ghost head: nat, ghost previous: nat)
      requires Valid() && hasSeqlock
      modifies `now, `count, `events, `loaded, `seen
      ensures Valid() && old(now) <= now
      ensures race ==> !ok
      ensures !ok ==> loaded == old(loaded)
      ensures ok ==> Snapshot(world, loaded, seen, old(now), previous, head, now)
      ensures Calm(world, faults, old(now)) ==> ok
      ensures Attempted(old(events), events, ok, race, now)
    {
      var snapshot;
      ghost var was;
      ok, race, snapshot, was, head, previous := Collect();
      if ok {
        loaded, seen := snapshot, was;
      }
    }

    /** Tries again exactly when the list was changed under the reader, up to 16 times in all. */
    method ReadAllEntries() returns (ok: bool, ghost start: nat, ghost head: nat, ghost previous: nat)
      requires Valid() && hasSeqlock
      modifies `now, `count, `events, `loaded, `seen
      ensures Valid() && old(now) <= now
      ensures !ok ==> loaded == old(loaded)
      ensures ok ==> old(now) <= start && Snapshot(world, loaded, seen, start, previous, head, now)
      ensures Calm(world, faults, old(now)) ==> ok
      ensures old(events) <= events && RetriedAfterRaces(events[|old(events)|..], ok)
      ensures CalmAfterRace(world, faults, events[|old(events)|..]) ==> ok
    {
      hide Calm, Snapshot, CalmAfterRace, AllRaces;
      start, head, previous := now, now, now;
      ghost var before, races := events, [];
      NoRaceYet(world, faults);
      for i := 0 to MAX_RACE_RETRIES
        invariant Valid() && old(now) <= now && loaded == old(loaded)
        invariant Calm(world, faults, old(now)) ==> i == 0 && now == old(now)
        invariant events == before + races && |races| == i && AllRaces(races)
        invariant CalmAfterRace(world, faults, races) ==> 0 < i < 16 && Calm(world, faults, now)
      {
        start := now;
        var race;
        ok, race, head, previous := ReadUntilStable();
        if ok {
          assert events[|before|..] == races;
          return;
        }
        ghost var e := events[|before + races|];
        assert events[|before|..] == races + [e];
        if !race {
          LastAttempt(world, faults, races, e);
          return;
        }
        AnotherRace(world, faults, races, now);
        races := races + [e];
      }
      assert events[|before|..] == races;
      SixteenRaces(races);
      ok := false;
    }
  }
}
