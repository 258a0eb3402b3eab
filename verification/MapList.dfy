/** The list of memory maps of the running process, and reading it again. */
module MapList {

  class MapInfo {
    const start: nat
    const end: nat
    const offset: nat
    const flags: nat
    const name: string
    // The neighbours in the list.
    var prev: MapInfo?
    var next: MapInfo?

    /** A new map after `prev`. */
    constructor Create(prev: MapInfo?, e: Entry)
      modifies if prev == null then {} else {prev}
      ensures KeyOf(this) == EntryKey(e) && offset == e.offset && this.prev == prev && next == null
      ensures prev != null ==> prev.next == this && prev.prev == old(prev.prev)
    {
      start, end, offset, flags, name := e.start, e.end, e.offset, FlagsOf(e), e.name;
      this.prev, next := prev, null;
      new;
      if prev != null {
        prev.next := this;
      }
    }
  }

  /** A line of the maps file. */
  datatype Entry = Entry(start: nat, end: nat, offset: nat, flags: nat, name: string)

  const MAPS_FLAGS_DEVICE_MAP := 0x8000

  predicate HasPrefix(s: string, p: string) {
    |p| <= |s| && s[..|p|] == p
  }

  /** A map of a device is marked. */
  function FlagsOf(e: Entry): nat {
    if HasPrefix(e.name, "/dev/") && !HasPrefix(e.name[5..], "ashmem/") && e.flags / MAPS_FLAGS_DEVICE_MAP % 2 == 0
    then e.flags + MAPS_FLAGS_DEVICE_MAP else e.flags
  }

  /** A map is marked if it was or if its name lies in /dev/ but not in /dev/ashmem/; its other flags stay. */
  lemma DeviceMapsAreMarked(e: Entry)
    ensures FlagsOf(e) / 0x8000 % 2 == 1 <==>
              e.flags / 0x8000 % 2 == 1 || (exists rest :: e.name == "/dev/" + rest && forall more :: rest != "ashmem/" + more)
    ensures FlagsOf(e) % 0x8000 == e.flags % 0x8000 && FlagsOf(e) / 0x1_0000 == e.flags / 0x1_0000
  {
    PrefixIff(e.name, "/dev/");
    if HasPrefix(e.name, "/dev/") {
      assert forall rest :: e.name == "/dev/" + rest ==> rest == e.name[5..];
      PrefixIff(e.name[5..], "ashmem/");
    }
  }

  lemma PrefixIff(s: string, p: string)
    ensures HasPrefix(s, p) <==> exists rest :: s == p + rest
    ensures HasPrefix(s, p) ==> s == p + s[|p|..]
  {
    if HasPrefix(s, p) {
      assert s == p + s[|p|..];
    }
  }

  /** What two maps are compared on. The offset is not part of it. */
  datatype Key = Key(start: nat, end: nat, flags: nat, name: string)

  function KeyOf(m: MapInfo): Key {
    Key(m.start, m.end, m.flags, m.name)
  }

  function EntryKey(e: Entry): Key {
    Key(e.start, e.end, FlagsOf(e), e.name)
  }

  function KeysOf(ms: seq<MapInfo>): (ks: seq<Key>)
    ensures |ks| == |ms|
  {
    seq(|ms|, i requires 0 <= i < |ms| => KeyOf(ms[i]))
  }

  function EntryKeys(es: seq<Entry>): (ks: seq<Key>)
    ensures |ks| == |es|
  {
    seq(|es|, i requires 0 <= i < |es| => EntryKey(es[i]))
  }

  ghost predicate Increasing(ks: seq<Key>) {
    forall i, j :: 0 <= i < j < |ks| ==> ks[i].start < ks[j].start
  }

  ghost predicate Distinct(ms: seq<MapInfo>) {
    forall i, j :: 0 <= i < j < |ms| ==> ms[i] != ms[j]
  }

  /** The links of each map are its neighbours in the list. */
  ghost predicate Chained(ms: seq<MapInfo>)
    reads ms
  {
    forall i :: 0 <= i < |ms| ==> LinkedAt(ms, i)
  }

  ghost predicate LinkedAt(ms: seq<MapInfo>, i: nat)
    requires i < |ms|
    reads ms
  {
    && ms[i].prev == (if i == 0 then null else ms[i - 1])
    && ms[i].next == (if i == |ms| - 1 then null else ms[i + 1])
  }

  // Lists with holes.

  function Present(ms: seq<MapInfo?>): (r: seq<MapInfo>)
    ensures |r| <= |ms|
  {
    if ms == [] then [] else if ms[0] == null then Present(ms[1..]) else [ms[0]] + Present(ms[1..])
  }

  lemma {:induction false} PresentCounts(ms: seq<MapInfo?>, x: MapInfo)
    ensures multiset(Present(ms))[x] == multiset(ms)[x]
  {
    if ms != [] {
      PresentCounts(ms[1..], x);
      assert ms == [ms[0]] + ms[1..];
      assert multiset(ms) == multiset([ms[0]]) + multiset(ms[1..]);
      if ms[0] != null {
        assert multiset(Present(ms)) == multiset([ms[0] as MapInfo]) + multiset(Present(ms[1..]));
      }
    }
  }

  lemma {:induction false} PresentLosesOne(ms: seq<MapInfo?>, i: nat)
    requires i < |ms| && ms[i] != null
    ensures |Present(ms[i := null])| == |Present(ms)| - 1
  {
    if i > 0 {
      PresentLosesOne(ms[1..], i - 1);
      assert ms[i := null][1..] == ms[1..][i - 1 := null];
    } else {
      assert ms[0 := null][1..] == ms[1..];
    }
  }

  lemma {:induction false} PresentAll(ms: seq<MapInfo?>)
    requires null !in ms
    ensures Present(ms) == ms
  {
    if ms != [] {
      PresentAll(ms[1..]);
    }
  }

  predicate NotAfter(a: MapInfo?, b: MapInfo?) {
    b == null || (a != null && a.start <= b.start)
  }

  ghost predicate Ordered(ms: seq<MapInfo?>) {
    forall i, j :: 0 <= i < j < |ms| ==> NotAfter(ms[i], ms[j])
  }

  method Insert(sorted: seq<MapInfo?>, x: MapInfo?) returns (r: seq<MapInfo?>)
    requires Ordered(sorted)
    ensures Ordered(r) && multiset(r) == multiset(sorted) + multiset{x}
  {
    var i := 0;
    while i < |sorted| && NotAfter(sorted[i], x)
      invariant i <= |sorted| && forall k :: 0 <= k < i ==> NotAfter(sorted[k], x)
    {
      i := i + 1;
    }
    r := sorted[..i] + [x] + sorted[i..];
    assert sorted == sorted[..i] + sorted[i..];
    InsertedIsOrdered(sorted, i, x, r);
  }

  lemma InsertedIsOrdered(sorted: seq<MapInfo?>, i: nat, x: MapInfo?, r: seq<MapInfo?>)
    requires Ordered(sorted) && i <= |sorted| && r == sorted[..i] + [x] + sorted[i..]
    requires forall k :: 0 <= k < i ==> NotAfter(sorted[k], x)
    requires i < |sorted| ==> !NotAfter(sorted[i], x)
    ensures Ordered(r)
  {
    forall k, l | 0 <= k < l < |r|
      ensures NotAfter(r[k], r[l])
    {
      assert r[k] == if k < i then sorted[k] else if k == i then x else sorted[k - 1];
      assert r[l] == if l < i then sorted[l] else if l == i then x else sorted[l - 1];
      if l > i && l - 1 > i {
        assert NotAfter(sorted[i], sorted[l - 1]);
      }
    }
  }

  /** Sorts by start, with the holes at the end. */
  method Sort(ms: seq<MapInfo?>) returns (r: seq<MapInfo?>)
    ensures Ordered(r) && multiset(r) == multiset(ms)
  {
    r := [];
    var i := 0;
    while i < |ms|
      invariant i <= |ms| && Ordered(r) && multiset(r) == multiset(ms[..i])
    {
      r := Insert(r, ms[i]);
      assert ms[..i + 1] == ms[..i] + [ms[i]];
      i := i + 1;
    }
    assert ms[..|ms|] == ms;
  }

  lemma TailOrdered(ms: seq<MapInfo?>)
    requires Ordered(ms) && ms != []
    ensures Ordered(ms[1..])
  {
    forall i, j | 0 <= i < j < |ms[1..]|
      ensures NotAfter(ms[1..][i], ms[1..][j])
    {
      assert ms[1..][i] == ms[i + 1] && ms[1..][j] == ms[j + 1];
    }
  }

  /** An ordered list is its maps followed by its holes. */
  lemma {:induction false} OrderedIsPresentFirst(ms: seq<MapInfo?>)
    requires Ordered(ms)
    ensures ms[..|Present(ms)|] == Present(ms)
  {
    if ms != [] {
      if ms[0] == null {
        assert forall i :: 0 < i < |ms| ==> NotAfter(ms[0], ms[i]);
        AllHoles(ms);
      } else {
        var rest := ms[1..];
        assert Ordered(rest) by { TailOrdered(ms); }
        OrderedIsPresentFirst(rest);
        assert ms == [ms[0]] + rest;
        assert ms[..|Present(ms)|] == [ms[0]] + rest[..|Present(rest)|];
      }
    }
  }

  lemma {:induction false} AllHoles(ms: seq<MapInfo?>)
    requires forall i :: 0 <= i < |ms| ==> ms[i] == null
    ensures Present(ms) == []
  {
    if ms != [] {
      AllHoles(ms[1..]);
    }
  }

  lemma PermutationPresent(a: seq<MapInfo?>, b: seq<MapInfo?>)
    requires multiset(a) == multiset(b)
    ensures multiset(Present(a)) == multiset(Present(b))
  {
    forall x | x in multiset(Present(a)) + multiset(Present(b))
      ensures multiset(Present(a))[x] == multiset(Present(b))[x]
    {
      PresentCounts(a, x);
      PresentCounts(b, x);
    }
  }

  ghost predicate StrictStarts(ms: seq<MapInfo>) {
    forall i, j :: 0 <= i < j < |ms| ==> ms[i].start < ms[j].start
  }

  ghost predicate Starts(ms: seq<MapInfo>) {
    forall i, j :: 0 <= i < j < |ms| ==> ms[i].start <= ms[j].start
  }

  lemma SameHead(a: seq<MapInfo>, b: seq<MapInfo>)
    requires multiset(a) == multiset(b) && Starts(a) && StrictStarts(b) && a != [] && b != []
    ensures a[0] == b[0]
  {
    assert a[0] in multiset(b) && b[0] in multiset(a);
    var k :| 0 <= k < |b| && b[k] == a[0];
    var l :| 0 <= l < |a| && a[l] == b[0];
  }

  lemma SameTail(a: seq<MapInfo>)
    requires a != []
    ensures multiset(a[1..]) == multiset(a) - multiset{a[0]}
  {
    assert a == [a[0]] + a[1..];
  }

  /** Lists in order with the same maps, whose starts tell them apart, are the same list. */
  lemma {:induction false} OneOrder(a: seq<MapInfo>, b: seq<MapInfo>)
    requires multiset(a) == multiset(b) && Starts(a) && StrictStarts(b)
    ensures a == b
  {
    assert |a| == |multiset(a)| == |multiset(b)| == |b|;
    if a != [] {
      SameHead(a, b);
      SameTail(a);
      SameTail(b);
      OneOrder(a[1..], b[1..]);
      assert a == [a[0]] + a[1..] && b == [b[0]] + b[1..];
    }
  }

  // Merging an old list with a new one.

  /** The first map with this key, or the length of the list if there is none. */
  function MatchOf(ms: seq<MapInfo>, k: Key): (r: nat)
    ensures r <= |ms| && (r < |ms| ==> KeyOf(ms[r]) == k && ms[r].start == k.start) && forall i :: 0 <= i < r ==> KeyOf(ms[i]) != k
  {
    if ms == [] then 0 else if KeyOf(ms[0]) == k then 0 else 1 + MatchOf(ms[1..], k)
  }

  ghost predicate Kept(olds: seq<MapInfo>, news: seq<MapInfo>, i: nat)
    requires i < |olds|
  {
    MatchOf(news, KeyOf(olds[i])) < |news|
  }

  ghost predicate Replaced(olds: seq<MapInfo>, news: seq<MapInfo>, k: nat)
    requires k < |news|
  {
    MatchOf(olds, KeyOf(news[k])) < |olds|
  }

  /** The kth map of the merged list: the old one if there is an equal one, and the new one otherwise. */
  ghost function Merged(olds: seq<MapInfo>, news: seq<MapInfo>, k: nat): MapInfo
    requires k < |news|
  {
    if Replaced(olds, news, k) then olds[MatchOf(olds, KeyOf(news[k]))] else news[k]
  }

  /** The list while it is merged: the first s old maps and the first j new ones are decided. */
  ghost predicate Merging(olds: seq<MapInfo>, news: seq<MapInfo>, work: seq<MapInfo?>, s: nat, j: nat) {
    && s <= |olds| && j <= |news| && |work| == |olds| + |news|
    && (forall i :: 0 <= i < |olds| ==> work[i] == if i < s && !Kept(olds, news, i) then null else olds[i])
    && forall k :: 0 <= k < |news| ==> work[|olds| + k] == if k < j && Replaced(olds, news, k) then null else news[k]
  }

  /** No decided old map can match an undecided new one, nor the other way round. */
  ghost predicate Apart(olds: seq<MapInfo>, news: seq<MapInfo>, s: nat, j: nat) {
    && (forall i, k :: 0 <= i < s <= |olds| && j <= k < |news| ==> olds[i].start < news[k].start)
    && forall i, k :: s <= i < |olds| && 0 <= k < j <= |news| ==> olds[i].start > news[k].start
  }

  /** The same while the jth new map is compared: the decided old maps differ from it. */
  ghost predicate Comparing(olds: seq<MapInfo>, news: seq<MapInfo>, s: nat, j: nat)
    requires j < |news|
  {
    && (forall i :: 0 <= i < s <= |olds| ==> KeyOf(olds[i]) != KeyOf(news[j]))
    && (forall i, k :: 0 <= i < s <= |olds| && j < k < |news| ==> olds[i].start < news[k].start)
    && forall i, k :: s <= i < |olds| && 0 <= k < j <= |news| ==> olds[i].start > news[k].start
  }

  lemma NotKept(olds: seq<MapInfo>, news: seq<MapInfo>, s: nat, j: nat)
    requires StrictStarts(olds) && StrictStarts(news) && s < |olds| && j < |news| && Comparing(olds, news, s, j)
    requires KeyOf(olds[s]) != KeyOf(news[j]) && olds[s].start <= news[j].start
    ensures !Kept(olds, news, s) && Comparing(olds, news, s + 1, j)
  {
    var k := MatchOf(news, KeyOf(olds[s]));
    assert k >= j;
  }

  lemma IsMatch(olds: seq<MapInfo>, news: seq<MapInfo>, s: nat, j: nat)
    requires StrictStarts(olds) && StrictStarts(news) && s < |olds| && j < |news| && Comparing(olds, news, s, j)
    requires KeyOf(olds[s]) == KeyOf(news[j])
    ensures Kept(olds, news, s) && MatchOf(olds, KeyOf(news[j])) == s && Apart(olds, news, s + 1, j + 1)
  {
    assert KeyOf(olds[s]).start == olds[s].start && KeyOf(news[j]).start == news[j].start;
  }

  lemma NotReplaced(olds: seq<MapInfo>, news: seq<MapInfo>, s: nat, j: nat)
    requires StrictStarts(olds) && StrictStarts(news) && s <= |olds| && j < |news| && Comparing(olds, news, s, j)
    requires s < |olds| ==> olds[s].start > news[j].start
    ensures !Replaced(olds, news, j) && Apart(olds, news, s, j + 1)
  {
  }

  /** Once either list is decided, so is the other. */
  lemma AllDecided(olds: seq<MapInfo>, news: seq<MapInfo>, s: nat, j: nat)
    requires Apart(olds, news, s, j) && s <= |olds| && j <= |news| && (s == |olds| || j == |news|)
    ensures forall i :: s <= i < |olds| ==> !Kept(olds, news, i)
    ensures forall k :: j <= k < |news| ==> !Replaced(olds, news, k)
  {
  }

  lemma {:induction false} DistinctCounts(ms: seq<MapInfo?>, x: MapInfo)
    requires forall i, j :: 0 <= i < j < |ms| && ms[i] != null ==> ms[i] != ms[j]
    ensures multiset(ms)[x] == if x in ms then 1 else 0
  {
    if ms != [] {
      assert ms == [ms[0]] + ms[1..];
      assert multiset(ms) == multiset{ms[0]} + multiset(ms[1..]);
      DistinctCounts(ms[1..], x);
    }
  }

  /** What is left after the merge are the maps of the merged list. */
  lemma MergedIsPresent(olds: seq<MapInfo>, news: seq<MapInfo>, work: seq<MapInfo?>, merged: seq<MapInfo>)
    requires StrictStarts(olds) && StrictStarts(news) && Distinct(olds + news)
    requires Merging(olds, news, work, |olds|, |news|)
    requires |merged| == |news| && forall k :: 0 <= k < |news| ==> merged[k] == Merged(olds, news, k)
    ensures multiset(Present(work)) == multiset(merged) && StrictStarts(merged)
  {
    assert StrictStarts(merged) by {
      forall k | 0 <= k < |merged|
        ensures merged[k].start == news[k].start
      {
        assert KeyOf(merged[k]) == KeyOf(news[k]);
      }
    }
    WorkDistinct(olds, news, work);
    forall x | x in multiset(Present(work)) + multiset(merged)
      ensures multiset(Present(work))[x] == multiset(merged)[x]
    {
      PresentCounts(work, x);
      DistinctCounts(work, x);
      DistinctCounts(merged, x);
      MergedMembers(olds, news, work, merged, x);
    }
  }

  lemma WorkDistinct(olds: seq<MapInfo>, news: seq<MapInfo>, work: seq<MapInfo?>)
    requires Distinct(olds + news) && Merging(olds, news, work, |olds|, |news|)
    ensures forall i, j :: 0 <= i < j < |work| && work[i] != null ==> work[i] != work[j]
  {
    forall i | 0 <= i < |work|
      ensures work[i] == null || work[i] == (olds + news)[i]
    {
      assert i >= |olds| ==> work[i] == work[|olds| + (i - |olds|)];
    }
  }

  lemma MergedMembers(olds: seq<MapInfo>, news: seq<MapInfo>, work: seq<MapInfo?>, merged: seq<MapInfo>, x: MapInfo)
    requires StrictStarts(olds) && StrictStarts(news) && Merging(olds, news, work, |olds|, |news|)
    requires |merged| == |news| && forall k :: 0 <= k < |news| ==> merged[k] == Merged(olds, news, k)
    ensures x in work <==> x in merged
  {
    hide Merging, Merged, MatchOf, StrictStarts;
    if x in work {
      var i :| 0 <= i < |work| && work[i] == x;
      LeftInMerged(olds, news, work, merged, i);
    }
    if x in merged {
      var k :| 0 <= k < |merged| && merged[k] == x;
      MergedIsLeft(olds, news, work, merged, k);
    }
  }

  lemma LeftInMerged(olds: seq<MapInfo>, news: seq<MapInfo>, work: seq<MapInfo?>, merged: seq<MapInfo>, i: nat)
    requires StrictStarts(olds) && StrictStarts(news) && Merging(olds, news, work, |olds|, |news|)
    requires |merged| == |news| && forall k :: 0 <= k < |news| ==> merged[k] == Merged(olds, news, k)
    requires i < |work| && work[i] != null
    ensures work[i] in merged
  {
    hide MatchOf;
    if i < |olds| {
      var k := MatchOf(news, KeyOf(olds[i]));
      SamePlace(olds, i, MatchOf(olds, KeyOf(news[k])));
      assert merged[k] == work[i];
    } else {
      var k := i - |olds|;
      assert work[|olds| + k] == work[i] && merged[k] == work[i];
    }
  }

  lemma MergedIsLeft(olds: seq<MapInfo>, news: seq<MapInfo>, work: seq<MapInfo?>, merged: seq<MapInfo>, k: nat)
    requires StrictStarts(olds) && StrictStarts(news) && Merging(olds, news, work, |olds|, |news|)
    requires |merged| == |news| && forall k :: 0 <= k < |news| ==> merged[k] == Merged(olds, news, k)
    requires k < |merged|
    ensures merged[k] in work
  {
    hide MatchOf, StrictStarts;
    if Replaced(olds, news, k) {
      var i := MatchOf(olds, KeyOf(news[k]));
      assert KeyOf(olds[i]) == KeyOf(news[k]);
      assert MatchOf(news, KeyOf(olds[i])) <= k;
      assert work[i] == merged[k];
    } else {
      assert work[|olds| + k] == merged[k];
    }
  }

  /** In a list with increasing starts a key is at one place. */
  lemma SamePlace(ms: seq<MapInfo>, i: nat, i': nat)
    requires StrictStarts(ms) && i < |ms| && i' <= |ms|
    requires i' < |ms| ==> KeyOf(ms[i']) == KeyOf(ms[i])
    requires forall j :: 0 <= j < i' ==> KeyOf(ms[j]) != KeyOf(ms[i])
    ensures i' == i
  {
    assert KeyOf(ms[i]).start == ms[i].start;
    assert i' < |ms| ==> ms[i'].start == ms[i].start;
  }

  /** Lists of the same length, each of whose old maps has an equal new one, have the same keys. */
  lemma {:induction false} SameKeys(olds: seq<MapInfo>, news: seq<MapInfo>)
    requires StrictStarts(olds) && StrictStarts(news)
    ensures (|olds| == |news| && forall i :: 0 <= i < |olds| ==> Kept(olds, news, i)) <==> KeysOf(olds) == KeysOf(news)
  {
    if KeysOf(olds) == KeysOf(news) {
      forall i | 0 <= i < |olds|
        ensures Kept(olds, news, i)
      {
        assert KeysOf(olds)[i] == KeysOf(news)[i];
        assert MatchOf(news, KeyOf(olds[i])) <= i;
      }
    }
    if |olds| == |news| && forall i :: 0 <= i < |olds| ==> Kept(olds, news, i) {
      forall i | 0 <= i < |olds|
        ensures KeyOf(olds[i]) == KeyOf(news[i])
      {
        MatchesGrow(olds, news, i);
      }
      assert KeysOf(olds) == KeysOf(news);
    }
  }

  lemma {:induction false} MatchesGrow(olds: seq<MapInfo>, news: seq<MapInfo>, i: nat)
    requires StrictStarts(olds) && StrictStarts(news) && |olds| == |news| && i < |olds|
    requires forall k :: 0 <= k < |olds| ==> Kept(olds, news, k)
    ensures MatchOf(news, KeyOf(olds[i])) == i
  {
    MatchAtLeast(olds, news, i);
    MatchAtMost(olds, news, i);
  }

  lemma {:induction false} MatchAtLeast(olds: seq<MapInfo>, news: seq<MapInfo>, i: nat)
    requires StrictStarts(olds) && StrictStarts(news) && i < |olds| && forall k :: 0 <= k < |olds| ==> Kept(olds, news, k)
    ensures MatchOf(news, KeyOf(olds[i])) >= i
  {
    if i > 0 {
      MatchAtLeast(olds, news, i - 1);
      assert Kept(olds, news, i - 1) && Kept(olds, news, i);
    }
  }

  lemma {:induction false} MatchAtMost(olds: seq<MapInfo>, news: seq<MapInfo>, i: nat)
    requires StrictStarts(olds) && StrictStarts(news) && |olds| == |news| && i < |olds|
    requires forall k :: 0 <= k < |olds| ==> Kept(olds, news, k)
    ensures MatchOf(news, KeyOf(olds[i])) <= i
    decreases |olds| - i
  {
    assert Kept(olds, news, i);
    if i + 1 < |olds| {
      MatchAtMost(olds, news, i + 1);
      assert Kept(olds, news, i + 1);
    }
  }

  ghost predicate KeptBelow(olds: seq<MapInfo>, news: seq<MapInfo>, s: nat) {
    forall i :: 0 <= i < s && i < |olds| ==> Kept(olds, news, i)
  }

  /** What the merge has done with `gone` maps dropped: the list with its holes, and the chain of the maps that stay. */
  ghost predicate Marked(olds: seq<MapInfo>, news: seq<MapInfo>, work: seq<MapInfo?>, chain: seq<MapInfo>, s: nat, j: nat, gone: nat) {
    && Merging(olds, news, work, s, j) && |Present(work)| + gone == |work| && |chain| == |news|
    && forall k :: 0 <= k < |news| ==> chain[k] == if k < j then Merged(olds, news, k) else news[k]
  }

  ghost predicate Progress(olds: seq<MapInfo>, news: seq<MapInfo>, work: seq<MapInfo?>, chain: seq<MapInfo>, s: nat, j: nat, gone: nat) {
    Marked(olds, news, work, chain, s, j, gone) && Apart(olds, news, s, j)
  }

  ghost predicate Halfway(olds: seq<MapInfo>, news: seq<MapInfo>, work: seq<MapInfo?>, chain: seq<MapInfo>, s: nat, j: nat, gone: nat) {
    Marked(olds, news, work, chain, s, j, gone) && j < |news| && Comparing(olds, news, s, j)
  }

  lemma StartComparing(olds: seq<MapInfo>, news: seq<MapInfo>, work: seq<MapInfo?>, chain: seq<MapInfo>, s: nat, j: nat, gone: nat)
    requires Progress(olds, news, work, chain, s, j, gone) && j < |news|
    ensures Halfway(olds, news, work, chain, s, j, gone)
  {
    hide Marked;
    assert s <= |olds| by { SizesOf(olds, news, work, chain, s, j, gone); }
    forall i | 0 <= i < s
      ensures KeyOf(olds[i]) != KeyOf(news[j])
    {
      assert olds[i].start < news[j].start;
    }
  }

  lemma SizesOf(olds: seq<MapInfo>, news: seq<MapInfo>, work: seq<MapInfo?>, chain: seq<MapInfo>, s: nat, j: nat, gone: nat)
    requires Marked(olds, news, work, chain, s, j, gone)
    ensures s <= |olds| && j <= |news| && |work| == |olds| + |news| && |chain| == |news|
  {
  }

  lemma InRange(olds: seq<MapInfo>, news: seq<MapInfo>, work: seq<MapInfo?>, chain: seq<MapInfo>, s: nat, j: nat, gone: nat)
    requires Halfway(olds, news, work, chain, s, j, gone)
    ensures |work| == |olds| + |news| && |chain| == |news| && j < |news| && work[|olds| + j] == news[j] == chain[j]
    ensures s < |olds| ==> work[s] == olds[s]
    ensures forall k :: 0 <= k < |chain| ==> chain[k] in olds || chain[k] in news
  {
    hide Present, Comparing;
  }

  /** The sth old map equals the jth new one: the new one goes. */
  lemma Found(olds: seq<MapInfo>, news: seq<MapInfo>, work: seq<MapInfo?>, chain: seq<MapInfo>, s: nat, j: nat, gone: nat)
    requires Halfway(olds, news, work, chain, s, j, gone) && s < |olds| && StrictStarts(olds) && StrictStarts(news)
    requires KeyOf(olds[s]) == KeyOf(news[j]) && Distinct(olds + news)
    ensures Distinct(chain) && olds[s] !in chain && |work| == |olds| + |news| && |chain| == |news| && chain[j] == news[j]
    ensures Progress(olds, news, work[|olds| + j := null], chain[j := olds[s]], s + 1, j + 1, gone + 1)
    ensures KeptBelow(olds, news, s + 1) <==> KeptBelow(olds, news, s)
  {
    hide Present, MatchOf, Comparing, Distinct;
    IsMatch(olds, news, s, j);
    PresentLosesOne(work, |olds| + j);
    ChainDistinct(olds, news, chain, s, j);
    hide StrictStarts, Apart;
    MarksNew(olds, news, work, s, j);
  }

  /** Deciding the sth old map, which stays, and the jth new one, which goes. */
  lemma MarksNew(olds: seq<MapInfo>, news: seq<MapInfo>, work: seq<MapInfo?>, s: nat, j: nat)
    requires Merging(olds, news, work, s, j) && s < |olds| && j < |news| && Kept(olds, news, s) && Replaced(olds, news, j)
    ensures Merging(olds, news, work[|olds| + j := null], s + 1, j + 1)
  {
    hide Kept, Replaced;
  }

  lemma ChainDistinct(olds: seq<MapInfo>, news: seq<MapInfo>, chain: seq<MapInfo>, s: nat, j: nat)
    requires |chain| == |news| && forall k :: 0 <= k < |news| ==> chain[k] == if k < j then Merged(olds, news, k) else news[k]
    requires s < |olds| && j < |news| && StrictStarts(olds) && StrictStarts(news) && Distinct(olds + news)
    requires KeyOf(olds[s]) == KeyOf(news[j])
    ensures Distinct(chain) && olds[s] !in chain
  {
    forall k | 0 <= k < |chain|
      ensures chain[k].start == news[k].start
    {
      assert KeyOf(chain[k]) == KeyOf(news[k]);
    }
    assert KeyOf(olds[s]).start == news[j].start;
    assert (olds + news)[s] == olds[s] && (olds + news)[|olds| + j] == news[j];
  }

  /** The sth old map cannot equal any new one: it goes. */
  lemma PassedOver(olds: seq<MapInfo>, news: seq<MapInfo>, work: seq<MapInfo?>, chain: seq<MapInfo>, s: nat, j: nat, gone: nat)
    requires Halfway(olds, news, work, chain, s, j, gone) && s < |olds| && StrictStarts(olds) && StrictStarts(news)
    requires KeyOf(olds[s]) != KeyOf(news[j]) && olds[s].start <= news[j].start
    ensures |work| == |olds| + |news| && Halfway(olds, news, work[s := null], chain, s + 1, j, gone + 1)
    ensures !KeptBelow(olds, news, s + 1)
  {
    NotKept(olds, news, s, j);
    PresentLosesOne(work, s);
    hide Present, MatchOf, Comparing;
  }

  /** No old map can equal the jth new one: it stays. */
  lemma NoneLeft(olds: seq<MapInfo>, news: seq<MapInfo>, work: seq<MapInfo?>, chain: seq<MapInfo>, s: nat, j: nat, gone: nat)
    requires Halfway(olds, news, work, chain, s, j, gone) && StrictStarts(olds) && StrictStarts(news)
    requires s < |olds| ==> olds[s].start > news[j].start
    ensures Progress(olds, news, work, chain, s, j + 1, gone)
  {
    NotReplaced(olds, news, s, j);
    hide Present, MatchOf, Comparing, StrictStarts, Apart, Kept;
  }

  lemma MergedStarts(olds: seq<MapInfo>, news: seq<MapInfo>, merged: seq<MapInfo>)
    requires StrictStarts(news) && KeysOf(merged) == KeysOf(news)
    ensures StrictStarts(merged)
  {
    forall k | 0 <= k < |merged|
      ensures merged[k].start == news[k].start
    {
      assert KeysOf(merged)[k].start == KeysOf(news)[k].start;
    }
  }

  lemma AllKept(olds: seq<MapInfo>, news: seq<MapInfo>)
    ensures KeptBelow(olds, news, |olds|) <==> forall i :: 0 <= i < |olds| ==> Kept(olds, news, i)
  {
    hide Kept;
  }

  /** The new maps in terms of the lines they were made from. */
  lemma ReadBack(news: seq<MapInfo>, lines: seq<Entry>)
    requires KeysOf(news) == EntryKeys(lines)
    ensures |news| == |lines| && forall k :: 0 <= k < |lines| ==> KeyOf(news[k]) == EntryKey(lines[k])
  {
    forall k | 0 <= k < |lines|
      ensures KeyOf(news[k]) == EntryKey(lines[k])
    {
      assert KeysOf(news)[k] == EntryKeys(lines)[k];
    }
  }

  /** Every old map that an equal line is read for has the offset of the line. */
  ghost predicate OffsetsKept(olds: seq<MapInfo?>, lines: seq<Entry>)
    requires null !in olds
  {
    forall i, k :: 0 <= i < |olds| && 0 <= k < |lines| && KeyOf(olds[i]) == EntryKey(lines[k]) ==> olds[i].offset == lines[k].offset
  }

  /** Offsets are not compared, so the merged list has those that were read exactly if the maps that stay have them. */
  lemma OffsetsAgree(olds: seq<MapInfo>, news: seq<MapInfo>, lines: seq<Entry>, merged: seq<MapInfo>)
    requires StrictStarts(olds) && |merged| == |news| == |lines|
    requires forall k :: 0 <= k < |news| ==> merged[k] == Merged(olds, news, k)
    requires forall k :: 0 <= k < |lines| ==> KeyOf(news[k]) == EntryKey(lines[k]) && news[k].offset == lines[k].offset
    ensures (forall k :: 0 <= k < |lines| ==> merged[k].offset == lines[k].offset) <==> OffsetsKept(olds, lines)
  {
    MergedReuses(olds, news, merged);
    if OffsetsKept(olds, lines) {
      forall k | 0 <= k < |lines|
        ensures merged[k].offset == lines[k].offset
      {
        var i := MatchOf(olds, KeyOf(news[k]));
        assert i < |olds| ==> KeyOf(olds[i]) == EntryKey(lines[k]);
      }
    }
  }

  lemma KeysIncrease(ms: seq<MapInfo>)
    requires Increasing(KeysOf(ms))
    ensures StrictStarts(ms)
  {
    assert forall i :: 0 <= i < |ms| ==> KeysOf(ms)[i].start == ms[i].start;
  }

  lemma DistinctTogether(olds: seq<MapInfo>, news: seq<MapInfo>)
    requires StrictStarts(olds) && Distinct(news) && forall i :: 0 <= i < |news| ==> news[i] !in olds
    ensures Distinct(olds + news)
  {
  }

  lemma StartProgress(olds: seq<MapInfo>, news: seq<MapInfo>, work: seq<MapInfo?>)
    requires null !in work && work == olds + news
    ensures Progress(olds, news, work, news, 0, 0, 0) && KeptBelow(olds, news, 0)
  {
    PresentAll(work);
    hide Kept, Replaced, Present;
  }

  /** When either list is decided, the rest of the new maps stay and the rest of the old ones are to go. */
  lemma LeftUndecided(olds: seq<MapInfo>, news: seq<MapInfo>, work: seq<MapInfo?>, chain: seq<MapInfo>, s: nat, j: nat, gone: nat)
    requires Progress(olds, news, work, chain, s, j, gone) && (s == |olds| || j == |news|)
    ensures s <= |olds| && |work| == |olds| + |news| && |Present(work)| + gone == |work|
    ensures Merging(olds, news, work, s, |news|) && forall i :: s <= i < |olds| ==> !Kept(olds, news, i)
    ensures |chain| == |news| && forall k :: 0 <= k < |news| ==> chain[k] == Merged(olds, news, k)
  {
    AllDecided(olds, news, s, j);
    hide Apart, Present, MatchOf, Kept;
  }

  lemma DropOne(olds: seq<MapInfo>, news: seq<MapInfo>, work: seq<MapInfo?>, i: nat)
    requires Merging(olds, news, work, i, |news|) && i < |olds| && !Kept(olds, news, i)
    ensures |work| == |olds| + |news| && |Present(work[i := null])| == |Present(work)| - 1
    ensures Merging(olds, news, work[i := null], i + 1, |news|) && !KeptBelow(olds, news, i + 1)
  {
    hide Replaced, Present;
    PresentLosesOne(work, i);
  }

  /** The merged list has the keys of the new one, and the old map wherever an old one is equal. */
  lemma MergedReuses(olds: seq<MapInfo>, news: seq<MapInfo>, merged: seq<MapInfo>)
    requires StrictStarts(olds) && |merged| == |news| && forall k :: 0 <= k < |news| ==> merged[k] == Merged(olds, news, k)
    ensures KeysOf(merged) == KeysOf(news)
    ensures forall i, k :: 0 <= i < |olds| && 0 <= k < |news| && KeyOf(olds[i]) == KeyOf(news[k]) ==> merged[k] == olds[i]
    ensures forall k :: 0 <= k < |news| && (forall i :: 0 <= i < |olds| ==> KeyOf(olds[i]) != KeyOf(news[k])) ==> merged[k] == news[k]
  {
    forall i, k | 0 <= i < |olds| && 0 <= k < |news| && KeyOf(olds[i]) == KeyOf(news[k])
      ensures merged[k] == olds[i]
    {
      assert KeyOf(olds[i]).start == KeyOf(news[k]).start == olds[i].start;
      var r := MatchOf(olds, KeyOf(news[k]));
      assert r == i;
    }
  }

  lemma PresentInOrder(ms: seq<MapInfo?>)
    requires Ordered(ms) && ms[..|Present(ms)|] == Present(ms)
    ensures Starts(Present(ms))
  {
    forall i, j | 0 <= i < j < |Present(ms)|
      ensures Present(ms)[i].start <= Present(ms)[j].start
    {
      assert NotAfter(ms[i], ms[j]);
      assert ms[..|Present(ms)|][i] == ms[i] && ms[..|Present(ms)|][j] == ms[j];
    }
  }

  /** Puts `info` in the place of the jth map of a chain, and fixes up the links of its neighbours. */
  method TakePlace(ghost chain: seq<MapInfo>, ghost j: nat, replaced: MapInfo, info: MapInfo)
    requires j < |chain| && chain[j] == replaced && Chained(chain) && Distinct(chain) && info !in chain
    modifies chain, info
    ensures Chained(chain[j := info])
  {
    var prev, next := replaced.prev, replaced.next;
    assert LinkedAt(chain, j);
    assert j > 0 ==> LinkedAt(chain, j - 1);
    assert j + 1 < |chain| ==> LinkedAt(chain, j + 1);
    info.prev := prev;
    info.next := next;
    if prev != null {
      prev.next := info;
    }
    if next != null {
      next.prev := info;
    }
    ghost var chain' := chain[j := info];
    forall i | 0 <= i < |chain'|
      ensures LinkedAt(chain', i)
    {
      assert old(LinkedAt(chain, i));
    }
  }

  class LocalUpdatableMaps {
    var maps: seq<MapInfo?>

    /** No holes, and the starts in order. */
    ghost predicate Valid()
      reads this
    {
      null !in maps && StrictStarts(maps)
    }

    constructor ()
      ensures Valid() && maps == []
    {
      maps := [];
    }

    /** The map that holds `pc`, if there is one, in a list whose maps do not overlap. */
    method Find(pc: nat) returns (found: MapInfo?)
      requires Valid() && forall i, j :: 0 <= i < j < |maps| ==> maps[i].end <= maps[j].start
      ensures found != null ==> found in maps && found.start <= pc < found.end
      ensures found == null ==> forall i :: 0 <= i < |maps| ==> !(maps[i].start <= pc < maps[i].end)
    {
      var first, last := 0, |maps|;
      while first < last
        invariant first <= last <= |maps|
        invariant forall i :: 0 <= i < first ==> maps[i].end <= pc || maps[i].end <= maps[i].start
        invariant forall i :: last <= i < |maps| ==> pc < maps[i].start
      {
        var index := (first + last) / 2;
        var cur := maps[index];
        if cur.start <= pc < cur.end {
          return cur;
        } else if pc < cur.start {
          last := index;
        } else {
          first := index + 1;
        }
      }
      found := null;
    }

    /** Adds a map for each line read, each after the one before. Reading may fail after any number of lines. */
    method Parse(lines: seq<Entry>, readAll: bool) returns (ok: bool, ghost added: seq<MapInfo>)
      requires null !in maps
      modifies this
      ensures ok == readAll && maps == old(maps) + added && null !in maps
      ensures KeysOf(added) == EntryKeys(lines) && Chained(added) && Distinct(added)
      ensures forall i :: 0 <= i < |added| ==> fresh(added[i]) && added[i].offset == lines[i].offset
    {
      added := [];
      var prev: MapInfo? := null;
      var i := 0;
      while i < |lines|
        invariant |added| == i <= |lines| && maps == old(maps) + added && null !in maps
        invariant prev == if i == 0 then null else added[i - 1]
        invariant forall k :: 0 <= k < i ==> KeyOf(added[k]) == EntryKey(lines[k]) && added[k].offset == lines[k].offset
        invariant forall k :: 0 <= k < i ==> fresh(added[k])
        invariant Chained(added) && Distinct(added)
      {
        ghost var before := added;
        assert prev != null ==> LinkedAt(added, i - 1);
        label L:
        prev := new MapInfo.Create(prev, lines[i]);
        maps := maps + [prev];
        added := added + [prev];
        forall k | 0 <= k < |added|
          ensures LinkedAt(added, k)
        {
          assert k < i ==> old@L(LinkedAt(before, k));
        }
        i := i + 1;
      }
      ok := readAll;
    }

    /** Reads the maps again. An old map stays exactly where an equal one is read, so that what is known about it is kept;
        the list comes out as it was read, as one chain, and a failed read leaves everything as it was. */
    method Reparse(lines: seq<Entry>, readAll: bool) returns (ok: bool, anyChanged: bool)
      requires Valid() && Increasing(EntryKeys(lines))
      modifies this, maps
      ensures ok == readAll && Valid()
      ensures !ok ==> maps == old(maps) && forall m :: m in old(maps) && m != null ==> m.prev == old(m.prev) && m.next == old(m.next)
      ensures ok ==> KeysOf(maps) == EntryKeys(lines) && Chained(maps)
      ensures ok ==> forall i, k :: 0 <= i < |old(maps)| && 0 <= k < |lines| && KeyOf(old(maps)[i]) == EntryKey(lines[k]) ==>
                maps[k] == old(maps)[i]
      ensures ok ==> forall k :: 0 <= k < |lines| && (forall i :: 0 <= i < |old(maps)| ==> KeyOf(old(maps)[i]) != EntryKey(lines[k])) ==>
                fresh(maps[k]) && maps[k].offset == lines[k].offset
      ensures ok ==> ((forall k :: 0 <= k < |lines| ==> maps[k].offset == lines[k].offset) <==> OffsetsKept(old(maps), lines))
      ensures ok ==> (!anyChanged <==> KeysOf(old(maps)) == EntryKeys(lines))
    {
      hide Merging, Kept, Replaced, Merged, StrictStarts, Distinct, KeptBelow, Increasing;
      ghost var olds: seq<MapInfo> := maps;
      var last := |maps|;
      ghost var news: seq<MapInfo>;
      anyChanged := false;
      ok, news := Parse(lines, readAll);
      if !ok {
        maps := maps[..last];
        return;
      }
      KeysIncrease(news);
      assert forall i :: 0 <= i < |news| ==> fresh(news[i]);
      DistinctTogether(olds, news);
      var deletedOld, deletedNew;
      ghost var chain;
      deletedOld, deletedNew, chain := Merge(last, olds, news);
      Compact(deletedOld + deletedNew, olds, news, chain);
      SameKeys(olds, news);
      MergedReuses(olds, news, chain);
      MergedStarts(olds, news, chain);
      AllKept(olds, news);
      ReadBack(news, lines);
      OffsetsAgree(olds, news, lines, chain);
      anyChanged := deletedOld != 0 || |maps| != last;
    }

    /** Decides every old and new map. */
    method Merge(last: nat, ghost olds: seq<MapInfo>, ghost news: seq<MapInfo>) returns (deletedOld: nat, deletedNew: nat, ghost chain: seq<MapInfo>)
      requires last == |olds| && null !in maps && maps == olds + news
      requires StrictStarts(olds) && StrictStarts(news) && Distinct(olds + news) && Chained(news)
      modifies this, olds, news
      ensures Merging(olds, news, maps, last, |news|) && |Present(maps)| + deletedOld + deletedNew == |maps|
      ensures |chain| == |news| && (forall k :: 0 <= k < |news| ==> chain[k] == Merged(olds, news, k)) && Chained(chain)
      ensures deletedOld == 0 <==> KeptBelow(olds, news, last)
    {
      hide Present, Progress, KeptBelow, Merging, Merged, Distinct, StrictStarts;
      var search: nat;
      search, deletedOld, deletedNew := 0, 0, 0;
      chain := news;
      StartProgress(olds, news, maps);
      var j := 0;
      while j < |maps| - last && search < last
        invariant Progress(olds, news, maps, chain, search, j, deletedOld + deletedNew) && Chained(chain)
        invariant deletedOld == 0 <==> KeptBelow(olds, news, search)
        invariant |maps| == last + |news| && j <= |news| && search <= last
        decreases |news| - j
      {
        search, deletedOld, deletedNew, chain := CompareOne(last, j, search, deletedOld, deletedNew, olds, news, chain);
        j := j + 1;
      }
      deletedOld := DropRest(last, search, j, deletedOld, deletedNew, olds, news, chain);
    }

    /** Sorts the holes to the end and cuts them off. */
    method Compact(deleted: nat, ghost olds: seq<MapInfo>, ghost news: seq<MapInfo>, ghost chain: seq<MapInfo>)
      requires Merging(olds, news, maps, |olds|, |news|) && |Present(maps)| + deleted == |maps|
      requires StrictStarts(olds) && StrictStarts(news) && Distinct(olds + news)
      requires |chain| == |news| && forall k :: 0 <= k < |news| ==> chain[k] == Merged(olds, news, k)
      modifies this
      ensures maps == chain
    {
      MergedIsPresent(olds, news, maps, chain);
      hide Present, Merging, Merged, Distinct, StrictStarts, Ordered, Starts;
      ghost var work := maps;
      maps := Sort(maps);
      PermutationPresent(work, maps);
      OrderedIsPresentFirst(maps);
      assert |Present(maps)| == |multiset(Present(maps))| == |multiset(Present(work))| == |Present(work)|;
      assert |maps| == |multiset(maps)| == |multiset(work)| == |work|;
      PresentInOrder(maps);
      OneOrder(Present(maps), chain);
      maps := maps[..|maps| - deleted];
    }

    /** Looks for an old map equal to the jth new one, and drops the old maps passed over. */
    method CompareOne(last: nat, j: nat, search: nat, deletedOld: nat, deletedNew: nat, ghost olds: seq<MapInfo>,
        ghost news: seq<MapInfo>, ghost chain: seq<MapInfo>)
      returns (search': nat, deletedOld': nat, deletedNew': nat, ghost chain': seq<MapInfo>)
      requires last == |olds| && search < last && j < |news| && StrictStarts(olds) && StrictStarts(news) && Distinct(olds + news)
      requires Progress(olds, news, maps, chain, search, j, deletedOld + deletedNew) && Chained(chain)
      requires deletedOld == 0 <==> KeptBelow(olds, news, search)
      modifies this, olds, news
      ensures Progress(olds, news, maps, chain', search', j + 1, deletedOld' + deletedNew') && Chained(chain')
      ensures |maps| == |old(maps)| && search' <= last
      ensures deletedOld' == 0 <==> KeptBelow(olds, news, search')
    {
      hide Progress, Halfway, KeptBelow, Distinct, StrictStarts;
      search', deletedOld', deletedNew', chain' := search, deletedOld, deletedNew, chain;
      StartComparing(olds, news, maps, chain, search, j, deletedOld + deletedNew);
      InRange(olds, news, maps, chain, search, j, deletedOld + deletedNew);
      var newMap := maps[last + j];
      while search' < last
        invariant search' <= last && deletedNew' == deletedNew && chain' == chain && Chained(chain) && |maps| == |old(maps)|
        invariant Halfway(olds, news, maps, chain, search', j, deletedOld' + deletedNew)
        invariant deletedOld' == 0 <==> KeptBelow(olds, news, search')
        decreases last - search'
      {
        InRange(olds, news, maps, chain, search', j, deletedOld' + deletedNew);
        var info := maps[search'];
        if KeyOf(newMap) == KeyOf(info) {
          Found(olds, news, maps, chain, search', j, deletedOld' + deletedNew);
          TakePlace(chain, j, newMap, info);
          chain' := chain[j := info];
          maps := maps[last + j := null];
          search', deletedNew' := search' + 1, deletedNew + 1;
          return;
        } else if info.start > newMap.start {
          NoneLeft(olds, news, maps, chain, search', j, deletedOld' + deletedNew);
          return;
        }
        PassedOver(olds, news, maps, chain, search', j, deletedOld' + deletedNew);
        maps := maps[search' := null];
        search', deletedOld' := search' + 1, deletedOld' + 1;
      }
      NoneLeft(olds, news, maps, chain, search', j, deletedOld' + deletedNew);
    }

    /** Drops the old maps that come after the last new one. */
    method DropRest(last: nat, search: nat, ghost j: nat, deletedOld: nat, deletedNew: nat, ghost olds: seq<MapInfo>,
        ghost news: seq<MapInfo>, ghost chain: seq<MapInfo>)
      returns (deletedOld': nat)
      requires last == |olds| && (search == last || j == |news|)
      requires Progress(olds, news, maps, chain, search, j, deletedOld + deletedNew)
      requires deletedOld == 0 <==> KeptBelow(olds, news, search)
      modifies this
      ensures Merging(olds, news, maps, last, |news|) && |Present(maps)| + deletedOld' + deletedNew == |maps|
      ensures |chain| == |news| && forall k :: 0 <= k < |news| ==> chain[k] == Merged(olds, news, k)
      ensures deletedOld' == 0 <==> KeptBelow(olds, news, last)
    {
      hide Kept, Replaced, Present, Apart, Merging, Merged, KeptBelow;
      LeftUndecided(olds, news, maps, chain, search, j, deletedOld + deletedNew);
      deletedOld' := deletedOld;
      var i := search;
      while i < last
        invariant search <= i <= last && Merging(olds, news, maps, i, |news|) && |Present(maps)| + deletedOld' + deletedNew == |maps|
        invariant deletedOld' == 0 <==> KeptBelow(olds, news, i)
        invariant forall k :: i <= k < last ==> !Kept(olds, news, k)
      {
        DropOne(olds, news, maps, i);
        maps := maps[i := null];
        deletedOld' := deletedOld' + 1;
        i := i + 1;
      }
    }
  }

  /** A map read again at another offset of its file keeps the old offset, and no change is reported. */
  method OffsetMoves() returns (offset: nat, anyChanged: bool, offset': nat)
    ensures offset == 0x1000 && !anyChanged && offset' == 0x1000
  {
    var first, second := Entry(0x70000, 0x71000, 0x1000, 0, "lib"), Entry(0x70000, 0x71000, 0x2000, 0, "lib");
    var list := new LocalUpdatableMaps();
    var ok, _ := list.Reparse([first], true);
    offset := list.maps[0].offset;
    assert KeysOf(list.maps)[0] == EntryKeys([first])[0] == EntryKeys([second])[0];
    ok, anyChanged := list.Reparse([second], true);
    offset' := list.maps[0].offset;
  }
}
