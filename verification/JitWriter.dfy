/** The list of JIT entries as its writer changes it, one store at a time.

    A World is what memory holds at one instant: the head pointer, the entries by address, and the
    symbol files that can be loaded. `chain`, `birth` and `clock` are the writer's own view of it:
    the addresses in list order, and when each was put on the list. The reader sees none of these. */
module JitWriter {

  type Addr = nat

  // The bytes of a symbol file.
  type Image = seq<nat>

  /** An entry's address and the value its seqlock had: one incarnation of the address. */
  datatype Uid = Uid(address: Addr, seqlock: nat)

  datatype Entry = Entry(next: Addr, symAddr: nat, symSize: nat, seqlock: nat)

  datatype World = World(
    head: Addr,
    entries: map<Addr, Entry>,
    images: map<(nat, nat), Image>,
    chain: seq<Addr>,
    birth: map<Addr, nat>,
    clock: nat)

  predicate Even(n: nat) {
    n % 2 == 0
  }

  /** The entry at `a` is on the list and not marked dead. */
  predicate Live(w: World, a: Addr) {
    a in w.chain && a in w.entries && a in w.birth && Even(w.entries[a].seqlock)
  }

  predicate LiveUid(w: World, u: Uid) {
    Live(w, u.address) && w.entries[u.address].seqlock == u.seqlock
  }

  function UidAt(w: World, a: Addr): Uid
    requires a in w.entries
  {
    Uid(a, w.entries[a].seqlock)
  }

  /** What loading the symbol file of the entry at `a` would read. */
  predicate Loadable(w: World, a: Addr)
    requires a in w.entries
  {
    var e := w.entries[a];
    e.symAddr != 0 && (e.symAddr, e.symSize) in w.images
  }

  function ImageOf(w: World, a: Addr): Image
    requires a in w.entries && Loadable(w, a)
  {
    w.images[(w.entries[a].symAddr, w.entries[a].symSize)]
  }

  function ChainAt(w: World, i: nat): Addr {
    if i < |w.chain| then w.chain[i] else 0
  }

  /** The entry at position `i` of the chain points to the one after it. */
  ghost predicate PointsOn(w: World, i: nat)
    requires i < |w.chain| && w.chain[i] in w.entries
  {
    w.entries[w.chain[i]].next == ChainAt(w, i + 1)
  }

  /** The pointers in memory spell out the chain, newest entry first. */
  ghost predicate WellFormed(w: World) {
    && (forall i :: 0 <= i < |w.chain| ==> w.chain[i] != 0 && w.chain[i] in w.entries && w.chain[i] in w.birth)
    && (forall i :: 0 <= i < |w.chain| ==> w.birth[w.chain[i]] < w.clock)
    && (forall i, j :: 0 <= i < j < |w.chain| ==> w.birth[w.chain[j]] < w.birth[w.chain[i]])
    && w.head == ChainAt(w, 0)
    && (forall i :: 0 <= i < |w.chain| ==> PointsOn(w, i))
  }

  /** Symbol files come and go, but not the file of an entry that is live before and after. */
  ghost predicate KeepsLiveImages(w: World, w': World) {
    forall a :: Live(w, a) && Live(w', a) ==>
      var key := (w.entries[a].symAddr, w.entries[a].symSize);
      (key in w.images <==> key in w'.images) && (key in w.images ==> w.images[key] == w'.images[key])
  }

  /** Any store to an entry that is not on the list; its seqlock never goes back. */
  ghost predicate WritesUnlinked(w: World, w': World, a: Addr, e: Entry) {
    && a != 0 && a !in w.chain
    && (a in w.entries ==> w.entries[a].seqlock <= e.seqlock)
    && w' == w.(entries := w.entries[a := e], images := w'.images)
  }

  /** The store to the head pointer that puts a prepared entry at the front. */
  ghost predicate Publishes(w: World, w': World, a: Addr) {
    && a != 0 && a !in w.chain && a in w.entries
    && Even(w.entries[a].seqlock) && w.entries[a].next == w.head
    && w' == w.(head := a, chain := [a] + w.chain, birth := w.birth[a := w.clock], clock := w.clock + 1,
                images := w'.images)
  }

  /** An entry on the list is marked dead: its seqlock becomes odd. */
  ghost predicate Kills(w: World, w': World, i: nat, seqlock: nat) {
    && i < |w.chain| && w.chain[i] in w.entries
    && Even(w.entries[w.chain[i]].seqlock) && !Even(seqlock) && w.entries[w.chain[i]].seqlock < seqlock
    && w' == w.(entries := w.entries[w.chain[i] := w.entries[w.chain[i]].(seqlock := seqlock)], images := w'.images)
  }

  /** A dead entry is taken out: the pointer to it is replaced by the pointer it holds. */
  ghost predicate Unlinks(w: World, w': World, i: nat) {
    && i < |w.chain| && w.chain[i] in w.entries && !Even(w.entries[w.chain[i]].seqlock)
    && (i > 0 ==> w.chain[i - 1] in w.entries)
    && var next := w.entries[w.chain[i]].next;
      w' == w.(head := if i == 0 then next else w.head,
               entries := if i == 0 then w.entries
                          else w.entries[w.chain[i - 1] := w.entries[w.chain[i - 1]].(next := next)],
               chain := w.chain[..i] + w.chain[i + 1..],
               images := w'.images)
  }

  ghost predicate WriterStep(w: World, w': World) {
    && KeepsLiveImages(w, w')
    && (|| w' == w.(images := w'.images)
        || (exists a, e :: WritesUnlinked(w, w', a, e))
        || (exists a :: Publishes(w, w', a))
        || (exists i, seqlock :: Kills(w, w', i, seqlock))
        || (exists i :: Unlinks(w, w', i)))
  }

  /** What a reader may rely on between two instants, however many stores lie between them. */
  ghost predicate Later(w: World, w': World) {
    && w.clock <= w'.clock
    && (forall a :: a in w.entries ==> a in w'.entries && w.entries[a].seqlock <= w'.entries[a].seqlock)
    // An unchanged even seqlock means the same incarnation all along.
    && (forall a :: Live(w, a) && w'.entries[a].seqlock == w.entries[a].seqlock ==> SameIncarnation(w, w', a))
    // What is live now and older than `w` was live in `w` already.
    && (forall a :: Live(w', a) && w'.birth[a] < w.clock ==>
          Live(w, a) && w.entries[a].seqlock == w'.entries[a].seqlock && w.birth[a] == w'.birth[a])
  }

  ghost predicate SameIncarnation(w: World, w': World, a: Addr)
    requires Live(w, a) && a in w'.entries
  {
    && Live(w', a) && w.birth[a] == w'.birth[a]
    && w.entries[a].symAddr == w'.entries[a].symAddr && w.entries[a].symSize == w'.entries[a].symSize
    && Loadable(w, a) == Loadable(w', a)
    && (Loadable(w, a) ==> ImageOf(w, a) == ImageOf(w', a))
  }

  lemma LaterReflexive(w: World)
    ensures Later(w, w)
  {
  }

  lemma LaterTransitive(w: World, w': World, w'': World)
    requires Later(w, w') && Later(w', w'')
    ensures Later(w, w'')
  {
    forall a | Live(w, a) && w''.entries[a].seqlock == w.entries[a].seqlock
      ensures SameIncarnation(w, w'', a)
    {
      assert SameIncarnation(w, w', a);
      assert SameIncarnation(w', w'', a);
    }
  }

  lemma WritesUnlinkedKeeps(w: World, w': World, a: Addr, e: Entry)
    requires WellFormed(w) && KeepsLiveImages(w, w') && WritesUnlinked(w, w', a, e)
    ensures WellFormed(w') && Later(w, w')
  {
    forall i | 0 <= i < |w.chain|
      ensures PointsOn(w', i)
    {
      assert PointsOn(w, i);
    }
    forall b | Live(w, b) && w'.entries[b].seqlock == w.entries[b].seqlock
      ensures SameIncarnation(w, w', b)
    {
      assert Live(w', b);
    }
  }

  lemma PublishKeeps(w: World, w': World, a: Addr)
    requires WellFormed(w) && KeepsLiveImages(w, w') && Publishes(w, w', a)
    ensures WellFormed(w') && Later(w, w')
  {
    forall i | 0 <= i < |w'.chain|
      ensures PointsOn(w', i)
    {
      if i > 0 {
        assert PointsOn(w, i - 1);
      }
    }
    forall b | Live(w, b) && w'.entries[b].seqlock == w.entries[b].seqlock
      ensures SameIncarnation(w, w', b)
    {
      assert Live(w', b);
    }
  }

  lemma KillKeeps(w: World, w': World, i: nat, seqlock: nat)
    requires WellFormed(w) && KeepsLiveImages(w, w') && Kills(w, w', i, seqlock)
    ensures WellFormed(w') && Later(w, w')
  {
    forall k | 0 <= k < |w.chain|
      ensures PointsOn(w', k)
    {
      assert PointsOn(w, k);
    }
    forall b | Live(w, b) && w'.entries[b].seqlock == w.entries[b].seqlock
      ensures SameIncarnation(w, w', b)
    {
      assert Live(w', b);
    }
  }

  /** Taking out position `i` leaves every other position in place, and only the pointer before it differs. */
  lemma UnlinkShape(w: World, w': World, i: nat)
    requires WellFormed(w) && Unlinks(w, w', i)
    ensures |w'.chain| == |w.chain| - 1
    ensures forall k :: 0 <= k < |w'.chain| ==> w'.chain[k] == w.chain[if k < i then k else k + 1]
    ensures forall k :: 0 <= k < |w.chain| && k != i ==> w.chain[k] == w'.chain[if k < i then k else k - 1]
    ensures w'.birth == w.birth && w'.clock == w.clock && w'.entries.Keys == w.entries.Keys
    ensures forall a :: a in w.entries ==> w'.entries[a] == w.entries[a].(next := w'.entries[a].next)
    ensures forall a :: a in w.entries && (i == 0 || a != w.chain[i - 1]) ==> w'.entries[a] == w.entries[a]
  {
    hide WellFormed;
    WithoutOne(w.chain, w'.chain, i);
  }

  lemma WithoutOne(s: seq<Addr>, s': seq<Addr>, i: nat)
    requires i < |s| && s' == s[..i] + s[i + 1..]
    ensures |s'| == |s| - 1
    ensures forall k :: 0 <= k < |s'| ==> s'[k] == s[if k < i then k else k + 1]
    ensures forall k :: 0 <= k < |s| && k != i ==> s[k] == s'[if k < i then k else k - 1]
  {
  }

  /** The entry that led to the dead one is the only one on the list that is written. */
  lemma UnlinkEntry(w: World, w': World, i: nat, k: nat)
    requires WellFormed(w) && Unlinks(w, w', i) && k < |w.chain|
    ensures w'.entries.Keys == w.entries.Keys
    ensures w'.entries[w.chain[k]] == if i > 0 && k == i - 1 then w.entries[w.chain[k]].(next := ChainAt(w, i + 1))
                                      else w.entries[w.chain[k]]
  {
    assert PointsOn(w, i);
    if i > 0 && k < i - 1 {
      assert w.birth[w.chain[i - 1]] < w.birth[w.chain[k]];
    } else if i > 0 && k > i - 1 {
      assert w.birth[w.chain[k]] < w.birth[w.chain[i - 1]];
    }
  }

  lemma UnlinkPointsOn(w: World, w': World, i: nat, k: nat)
    requires WellFormed(w) && Unlinks(w, w', i) && k < |w.chain| - 1
    ensures |w'.chain| == |w.chain| - 1 && w'.chain[k] in w'.entries && PointsOn(w', k)
  {
    var j := if k < i then k else k + 1;
    UnlinkEntry(w, w', i, j);
    assert PointsOn(w, j);
    assert w'.chain == w.chain[..i] + w.chain[i + 1..];
  }

  lemma UnlinkWellFormed(w: World, w': World, i: nat)
    requires WellFormed(w) && Unlinks(w, w', i)
    ensures WellFormed(w')
  {
    UnlinkShape(w, w', i);
    assert PointsOn(w, 0);
    forall k | 0 <= k < |w'.chain|
      ensures PointsOn(w', k)
    {
      UnlinkPointsOn(w, w', i, k);
    }
  }

  lemma UnlinkKeeps(w: World, w': World, i: nat)
    requires WellFormed(w) && KeepsLiveImages(w, w') && Unlinks(w, w', i)
    ensures WellFormed(w') && Later(w, w')
  {
    UnlinkWellFormed(w, w', i);
    forall b | Live(w, b)
      ensures SameIncarnation(w, w', b)
    {
      UnlinkKeepsLive(w, w', i, b);
    }
    forall b | Live(w', b)
      ensures Live(w, b) && w'.entries[b].seqlock == w.entries[b].seqlock
    {
      UnlinkAddsNothing(w, w', i, b);
    }
    UnlinkShape(w, w', i);
  }

  lemma UnlinkKeepsLive(w: World, w': World, i: nat, b: Addr)
    requires WellFormed(w) && KeepsLiveImages(w, w') && Unlinks(w, w', i) && Live(w, b)
    ensures b in w'.entries && SameIncarnation(w, w', b)
  {
    hide WellFormed, KeepsLiveImages;
    var k :| 0 <= k < |w.chain| && w.chain[k] == b;
    UnlinkEntry(w, w', i, k);
    UnlinkShape(w, w', i);
    hide Unlinks;
    assert w'.chain[if k < i then k else k - 1] == b;
    KeptIncarnation(w, w', b);
  }

  /** A live entry of which at most the pointer is changed stays the same incarnation. */
  lemma KeptIncarnation(w: World, w': World, b: Addr)
    requires KeepsLiveImages(w, w') && Live(w, b) && b in w'.chain && b in w'.entries && b in w'.birth
    requires w'.entries[b] == w.entries[b].(next := w'.entries[b].next) && w'.birth[b] == w.birth[b]
    ensures SameIncarnation(w, w', b)
  {
    assert Live(w', b);
  }

  lemma UnlinkAddsNothing(w: World, w': World, i: nat, b: Addr)
    requires WellFormed(w) && Unlinks(w, w', i) && Live(w', b)
    ensures Live(w, b) && w'.entries[b].seqlock == w.entries[b].seqlock
  {
    var k :| 0 <= k < |w'.chain| && w'.chain[k] == b;
    var j := if k < i then k else k + 1;
    assert w.chain[j] == b;
    UnlinkEntry(w, w', i, j);
  }

  /** Every store keeps the list well formed and is a Later step. */
  lemma StepKeeps(w: World, w': World)
    requires WellFormed(w) && WriterStep(w, w')
    ensures WellFormed(w') && Later(w, w')
  {
    if w' == w.(images := w'.images) {
      forall i | 0 <= i < |w.chain|
        ensures PointsOn(w', i)
      {
        assert PointsOn(w, i);
      }
      forall b | Live(w, b) && w'.entries[b].seqlock == w.entries[b].seqlock
        ensures SameIncarnation(w, w', b)
      {
        assert Live(w', b);
      }
    } else if a, e :| WritesUnlinked(w, w', a, e) {
      WritesUnlinkedKeeps(w, w', a, e);
    } else if a :| Publishes(w, w', a) {
      PublishKeeps(w, w', a);
    } else if i, seqlock :| Kills(w, w', i, seqlock) {
      KillKeeps(w, w', i, seqlock);
    } else {
      var i :| Unlinks(w, w', i);
      UnlinkKeeps(w, w', i);
    }
  }

  /** The world at every instant of one run of the writer. */
  type Timeline = nat -> World

  ghost predicate StepsAt(world: Timeline, t: nat) {
    WriterStep(world(t), world(t + 1))
  }

  ghost predicate IsRun(world: Timeline) {
    WellFormed(world(0)) && forall t: nat :: StepsAt(world, t)
  }

  lemma {:induction false} RunWellFormed(world: Timeline, t: nat)
    requires IsRun(world)
    ensures WellFormed(world(t))
  {
    if t > 0 {
      RunWellFormed(world, t - 1);
      assert StepsAt(world, t - 1);
      StepKeeps(world(t - 1), world(t));
    }
  }

  lemma StepLater(world: Timeline, t: nat)
    requires IsRun(world)
    ensures Later(world(t), world(t + 1))
  {
    RunWellFormed(world, t);
    assert StepsAt(world, t);
    StepKeeps(world(t), world(t + 1));
  }

  /** However many stores lie between two instants, the later one is Later. */
  lemma {:induction false} RunLater(world: Timeline, t: nat, t': nat)
    requires IsRun(world) && t <= t'
    ensures Later(world(t), world(t'))
    decreases t'
  {
    if t == t' {
      LaterReflexive(world(t));
    } else {
      RunLater(world, t, t' - 1);
      StepLater(world, t' - 1);
      LaterTransitive(world(t), world(t' - 1), world(t'));
    }
  }

  lemma ClockGrows(world: Timeline, t: nat, t': nat)
    requires IsRun(world) && t <= t'
    ensures world(t).clock <= world(t').clock
  {
    RunLater(world, t, t');
  }
}
