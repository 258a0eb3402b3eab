/** Finding the function that covers an address: a binary search over the symbol table whose bounds come from a cache of
    the symbols it has read. */
module SymbolSearch {
  import opened OrderedMap

  const W32 := 0x1_0000_0000
  const W64 := 0x1_0000_0000_0000_0000

  datatype Sym = Sym(value: nat, size: nat, isFunc: bool, name: Option<string>)

  /** What is kept of a symbol: its size cut to 32 bits, its place in the searched table, and its name once it is known. */
  datatype Info = Info(size: nat, index: nat, name: Option<string>)

  // Keyed by the address just past a symbol.
  type Cache = map<nat, Info>

  // The table that is searched: the symbols that can be read.
  type View = seq<Option<Sym>>

  function End(s: Sym): nat {
    (s.value + s.size) % W64
  }

  predicate CoveredBy(s: Sym, addr: nat) {
    s.value <= addr < s.value + s.size
  }

  /** The start of a cached symbol as the search works it out. */
  function CachedValue(end: nat, info: Info): nat {
    (end - info.size) % W64
  }

  /** What was found: the key of its cache entry, and the distance from the start of the symbol. */
  datatype Hit = Hit(key: nat, offset: nat)

  /** Inserting into the cache never overwrites. */
  function Emplaced(cache: Cache, s: Sym, index: nat): Cache {
    if End(s) in cache then cache else cache[End(s) := Info(s.size % W32, index, None)]
  }

  function Slow(view: View, cache: Cache, addr: nat, first: nat, last: nat): (Option<Hit>, Cache)
    requires last <= |view|
    decreases last - first
  {
    if first >= last then (None, cache)
    else
      var current := first + (last - first) / 2;
      if view[current].None? then (None, cache)
      else
        var s := view[current].value;
        var cache' := Emplaced(cache, s, current);
        if addr < s.value then Slow(view, cache', addr, first, current)
        else if addr < End(s) then (Some(Hit(End(s), addr - s.value)), cache')
        else Slow(view, cache', addr, current + 1, last)
  }

  /** Every cached symbol is what the table says at its index, with its size cut to 32 bits; so using the index cannot go
      out of range. */
  ghost predicate Faithful(view: View, cache: Cache) {
    forall k :: k in cache ==> FaithfulAt(view, k, cache[k])
  }

  ghost predicate FaithfulAt(view: View, k: nat, info: Info) {
    && info.index < |view| && view[info.index].Some?
    && k == End(view[info.index].value) && info.size == view[info.index].value.size % W32
  }

  /** The search, given the first cached key above the address and the last one not above it. */
  function Search(view: View, cache: Cache, addr: nat, above: Option<nat>, below: Option<nat>): (Option<Hit>, Cache)
    requires Faithful(view, cache) && (above.Some? ==> above.value in cache) && (below.Some? ==> below.value in cache)
  {
    if above.Some? && CachedValue(above.value, cache[above.value]) <= addr
    then (Some(Hit(above.value, addr - CachedValue(above.value, cache[above.value]))), cache)
    else
      var last := if above.Some? then cache[above.value].index else |view| % W32;
      var first := if below.Some? then cache[below.value].index + 1 else 0;
      Slow(view, cache, addr, first, last)
  }

  lemma EmplaceFaithful(view: View, cache: Cache, current: nat)
    requires Faithful(view, cache) && current < |view| && view[current].Some?
    ensures Faithful(view, Emplaced(cache, view[current].value, current))
  {
    hide End;
    var s := view[current].value;
    assert FaithfulAt(view, End(s), Info(s.size % W32, current, None));
  }

  lemma {:induction false} SlowKeepsFaithful(view: View, cache: Cache, addr: nat, first: nat, last: nat)
    requires last <= |view| && Faithful(view, cache)
    ensures var r := Slow(view, cache, addr, first, last); Faithful(view, r.1) && (r.0.Some? ==> r.0.value.key in r.1)
    decreases last - first
  {
    hide Faithful;
    if first < last {
      var current := first + (last - first) / 2;
      if view[current].Some? {
        EmplaceFaithful(view, cache, current);
        var cache' := Emplaced(cache, view[current].value, current);
        SlowKeepsFaithful(view, cache', addr, first, current);
        SlowKeepsFaithful(view, cache', addr, current + 1, last);
      }
    }
  }

  /** Whatever the table holds, a search leaves only entries in the cache that the table has. */
  lemma SearchKeepsFaithful(view: View, cache: Cache, addr: nat, above: Option<nat>, below: Option<nat>)
    requires Faithful(view, cache) && (above.Some? ==> above.value in cache) && (below.Some? ==> below.value in cache)
    ensures var r := Search(view, cache, addr, above, below); Faithful(view, r.1) && (r.0.Some? ==> r.0.value.key in r.1)
  {
    hide Slow;
    var last := if above.Some? then cache[above.value].index else |view| % W32;
    var first := if below.Some? then cache[below.value].index + 1 else 0;
    SlowKeepsFaithful(view, cache, addr, first, last);
  }

  // What a table can be like.

  /** Everything can be read, and no symbol reaches the end of the address space. */
  ghost predicate Readable(view: View) {
    |view| < W32 && forall i :: 0 <= i < |view| ==> view[i].Some? && view[i].value.value + view[i].value.size < W64
  }

  ghost predicate ApartAt(a: Sym, b: Sym) {
    a.size > 0 && b.size > 0 ==> a.value + a.size <= b.value || b.value + b.size <= a.value
  }

  /** The symbols do not overlap, in whatever order they are. */
  ghost predicate Apart(view: View)
    requires Readable(view)
  {
    forall i, j :: 0 <= i < j < |view| ==> ApartAt(view[i].value, view[j].value)
  }

  /** The symbols are in order and do not overlap. */
  ghost predicate Sorted(view: View) {
    Readable(view) && forall i, j :: 0 <= i < j < |view| ==> view[i].value.value + view[i].value.size <= view[j].value.value
  }

  /** Sizes fit in the 32 bits that are kept of them. */
  ghost predicate Short(view: View)
    requires Readable(view)
  {
    forall i :: 0 <= i < |view| ==> view[i].value.size < W32
  }

  ghost predicate Hides(a: Sym, b: Sym) {
    a.size == 0 && b.size > 0 && a.value == b.value + b.size
  }

  /** No empty symbol stands where another symbol ends. */
  ghost predicate Harmless(view: View)
    requires Readable(view)
  {
    forall i, j :: 0 <= i < |view| && 0 <= j < |view| ==> !Hides(view[i].value, view[j].value)
  }

  /** The tables the cache works for, in any order. */
  ghost predicate Fair(view: View) {
    Readable(view) && Apart(view) && Harmless(view) && Short(view)
  }

  /** The tables the search works for. */
  ghost predicate Good(view: View) {
    Sorted(view) && Harmless(view) && Short(view)
  }

  lemma SortedIsApart(view: View)
    requires Sorted(view)
    ensures Readable(view) && Apart(view)
  {
  }

  ghost predicate Covers(view: View, i: nat, addr: nat) {
    i < |view| && view[i].Some? && CoveredBy(view[i].value, addr)
  }

  lemma OneCovers(view: View, i: nat, j: nat, addr: nat)
    requires Readable(view) && Apart(view) && Covers(view, i, addr) && Covers(view, j, addr)
    ensures i == j
  {
  }

  lemma EndOf(s: Sym)
    requires s.value + s.size < W64
    ensures End(s) == s.value + s.size
    ensures s.size < W32 ==> CachedValue(End(s), Info(s.size % W32, 0, None)) == s.value
    ensures CachedValue(End(s), Info(s.size % W32, 0, None)) == s.value + (s.size - s.size % W32)
  {
  }

  /** A symbol that is not empty shares its end with no other. */
  lemma OneEnd(view: View, i: nat, j: nat)
    requires Readable(view) && Apart(view) && Harmless(view) && i < |view| && j < |view|
    requires view[i].value.size > 0 && End(view[i].value) == End(view[j].value)
    ensures i == j
  {
    EndOf(view[i].value);
    EndOf(view[j].value);
    hide End;
    assert !Hides(view[j].value, view[i].value);
  }

  /** What is found covers the address, at that distance from its start. */
  ghost predicate Sound(view: View, addr: nat, h: Hit, cache: Cache) {
    h.key in cache && Covers(view, cache[h.key].index, addr) && h.offset == addr - view[cache[h.key].index].value.value
  }

  /** The answer a search should give: the covering symbol, or none if there is none. */
  ghost predicate Answers(view: View, addr: nat, hit: Option<Hit>, cache: Cache) {
    match hit
    case None => forall i :: !Covers(view, i, addr)
    case Some(h) => Sound(view, addr, h, cache)
  }

  /** A symbol that covers the address is found under its own entry. */
  lemma CoveringIsSound(view: View, cache: Cache, addr: nat, current: nat)
    requires Readable(view) && Apart(view) && Harmless(view) && Faithful(view, cache) && Covers(view, current, addr)
    ensures var s := view[current].value; Sound(view, addr, Hit(End(s), addr - s.value), Emplaced(cache, s, current))
  {
    var s := view[current].value;
    EndOf(s);
    hide End, Apart, Harmless;
    if End(s) in cache {
      assert FaithfulAt(view, End(s), cache[End(s)]);
      OneEnd(view, current, cache[End(s)].index);
    }
  }

  lemma {:induction false} SlowIsSound(view: View, cache: Cache, addr: nat, first: nat, last: nat)
    requires Readable(view) && Apart(view) && Harmless(view) && Faithful(view, cache) && last <= |view|
    ensures var r := Slow(view, cache, addr, first, last); r.0.Some? ==> Sound(view, addr, r.0.value, r.1)
    decreases last - first
  {
    hide Faithful, Apart, Harmless, Sound;
    if first < last {
      var current := first + (last - first) / 2;
      var s := view[current].value;
      EmplaceFaithful(view, cache, current);
      EndOf(s);
      hide End;
      var cache' := Emplaced(cache, s, current);
      hide Emplaced;
      if addr < s.value {
        SlowIsSound(view, cache', addr, first, current);
      } else if addr < End(s) {
        CoveringIsSound(view, cache, addr, current);
      } else {
        SlowIsSound(view, cache', addr, current + 1, last);
      }
    }
  }

  ghost predicate Bounds(view: View, addr: nat, first: nat, last: nat)
    requires Readable(view)
  {
    && (forall i :: 0 <= i < first && i < |view| ==> view[i].value.value + view[i].value.size <= addr)
    && forall i :: last <= i < |view| ==> addr < view[i].value.value
  }

  /** If the search finds nothing, nothing is covered between its bounds. */
  lemma {:induction false} SlowMisses(view: View, cache: Cache, addr: nat, first: nat, last: nat)
    requires Sorted(view) && last <= |view| && Bounds(view, addr, first, last)
    ensures Slow(view, cache, addr, first, last).0.None? ==> forall i :: !Covers(view, i, addr)
    decreases last - first
  {
    if first < last {
      var current := first + (last - first) / 2;
      var s := view[current].value;
      EndOf(s);
      hide End, Emplaced;
      var cache' := Emplaced(cache, s, current);
      if addr < s.value {
        SlowMisses(view, cache', addr, first, current);
      } else if addr >= End(s) {
        SlowMisses(view, cache', addr, current + 1, last);
      }
    }
  }

  /** In any order, what a search finds does cover the address. */
  lemma SearchIsSound(view: View, cache: Cache, addr: nat, above: Option<nat>, below: Option<nat>)
    requires Fair(view) && Faithful(view, cache) && (above.Some? ==> above.value in cache && addr < above.value)
    requires below.Some? ==> below.value in cache
    ensures var r := Search(view, cache, addr, above, below); r.0.Some? ==> Sound(view, addr, r.0.value, r.1)
  {
    hide Slow, Apart, Harmless;
    if above.Some? {
      assert FaithfulAt(view, above.value, cache[above.value]);
      EndOf(view[cache[above.value].index].value);
    }
    hide End, CachedValue;
    var last := if above.Some? then cache[above.value].index else |view| % W32;
    var first := if below.Some? then cache[below.value].index + 1 else 0;
    SlowIsSound(view, cache, addr, first, last);
  }

  lemma BoundsFromCache(view: View, cache: Cache, addr: nat, above: Option<nat>, below: Option<nat>)
    requires Sorted(view) && Short(view) && Faithful(view, cache)
    requires IsUpperBound(cache, addr, above) && IsLowerNeighbour(cache, addr, below)
    requires above.Some? ==> CachedValue(above.value, cache[above.value]) > addr
    ensures above.Some? ==> cache[above.value].index < |view|
    ensures Bounds(view, addr, if below.Some? then cache[below.value].index + 1 else 0, if above.Some? then cache[above.value].index else |view|)
  {
    hide Sorted, Short, CachedValue, Faithful;
    if above.Some? {
      StartsAbove(view, above.value, cache, addr);
    }
    if below.Some? {
      EndsBelow(view, below.value, cache, addr);
    }
  }

  lemma StartsAbove(view: View, k: nat, cache: Cache, addr: nat)
    requires Sorted(view) && Short(view) && Faithful(view, cache) && k in cache && CachedValue(k, cache[k]) > addr
    ensures cache[k].index < |view| && forall i :: cache[k].index <= i < |view| ==> addr < view[i].value.value
  {
    assert FaithfulAt(view, k, cache[k]);
    EndOf(view[cache[k].index].value);
    hide End, CachedValue, Faithful;
  }

  lemma EndsBelow(view: View, k: nat, cache: Cache, addr: nat)
    requires Sorted(view) && Faithful(view, cache) && k in cache && k <= addr
    ensures cache[k].index < |view|
    ensures forall i :: 0 <= i <= cache[k].index ==> view[i].value.value + view[i].value.size <= addr
  {
    assert FaithfulAt(view, k, cache[k]);
    EndOf(view[cache[k].index].value);
    hide End, CachedValue, Faithful;
  }

  /** Whatever has been searched for before, a search finds the symbol that covers the address if there is one. */
  lemma SearchAnswers(view: View, cache: Cache, addr: nat, above: Option<nat>, below: Option<nat>)
    requires Good(view) && Faithful(view, cache) && IsUpperBound(cache, addr, above) && IsLowerNeighbour(cache, addr, below)
    ensures var r := Search(view, cache, addr, above, below); Answers(view, addr, r.0, r.1)
  {
    hide Slow, End, CachedValue, Sound, Harmless, Apart, Faithful, Sorted, Short;
    SortedIsApart(view);
    SearchIsSound(view, cache, addr, above, below);
    if above.None? || CachedValue(above.value, cache[above.value]) > addr {
      BoundsFromCache(view, cache, addr, above, below);
      var last := if above.Some? then cache[above.value].index else |view| % W32;
      var first := if below.Some? then cache[below.value].index + 1 else 0;
      SlowMisses(view, cache, addr, first, last);
    }
  }

  // The condition is exact.

  ghost predicate AnswersFrom(view: View, cache: Cache, addr: nat, above: Option<nat>, below: Option<nat>) {
    Faithful(view, cache) && IsUpperBound(cache, addr, above) && IsLowerNeighbour(cache, addr, below) ==>
      var r := Search(view, cache, addr, above, below); Answers(view, addr, r.0, r.1)
  }

  /** Every search gives the right answer with every faithful cache, whether or not searches lead to it. */
  ghost predicate AlwaysAnswers(view: View) {
    forall cache: Cache, addr: nat, above: Option<nat>, below: Option<nat> :: AnswersFrom(view, cache, addr, above, below)
  }

  lemma {:induction false} SlowKeepsEntries(view: View, cache: Cache, addr: nat, first: nat, last: nat)
    requires last <= |view|
    ensures var r := Slow(view, cache, addr, first, last); forall k :: k in cache ==> k in r.1 && r.1[k] == cache[k]
    decreases last - first
  {
    hide End;
    if first < last {
      var current := first + (last - first) / 2;
      if view[current].Some? {
        var cache' := Emplaced(cache, view[current].value, current);
        SlowKeepsEntries(view, cache', addr, first, current);
        SlowKeepsEntries(view, cache', addr, current + 1, last);
      }
    }
  }

  /** What a search reads its way to covers the address and lies between the bounds. */
  lemma {:induction false} SlowHit(view: View, cache: Cache, addr: nat, first: nat, last: nat) returns (current: nat)
    requires Readable(view) && last <= |view| && Slow(view, cache, addr, first, last).0.Some?
    ensures first <= current < last && Covers(view, current, addr)
    ensures Slow(view, cache, addr, first, last).0.value.key == End(view[current].value)
    decreases last - first
  {
    current := first + (last - first) / 2;
    var s := view[current].value;
    EndOf(s);
    hide End, Emplaced;
    var cache' := Emplaced(cache, s, current);
    if addr < s.value {
      current := SlowHit(view, cache', addr, first, current);
    } else if addr >= End(s) {
      current := SlowHit(view, cache', addr, current + 1, last);
    }
  }

  /** A cached empty symbol that stands at the end of another hides it. */
  lemma EmptyHides(view: View, j: nat, i: nat)
    requires Sorted(view) && i < |view| && j < |view| && Hides(view[j].value, view[i].value)
    ensures !AlwaysAnswers(view)
  {
    var s, addr := view[i].value, view[i].value.value;
    EndOf(s);
    EndOf(view[j].value);
    var cache: Cache := map[End(s) := Info(0, j, None)];
    assert FaithfulAt(view, End(s), cache[End(s)]);
    assert CachedValue(End(s), cache[End(s)]) == End(s);
    hide End, CachedValue;
    var r := Search(view, cache, addr, Some(End(s)), None);
    assert r == Slow(view, cache, addr, 0, j);
    SlowKeepsEntries(view, cache, addr, 0, j);
    assert Covers(view, i, addr);
    if r.0.Some? {
      var current := SlowHit(view, cache, addr, 0, j);
      SortedIsApart(view);
      OneCovers(view, current, i, addr);
    }
    hide Slow, Search, Sorted;
    assert !Answers(view, addr, r.0, r.1);
    assert !AnswersFrom(view, cache, addr, Some(End(s)), None);
  }

  lemma EmptyCached(view: View, j: nat)
    requires Readable(view) && j < |view| && view[j].value.size == 0
    ensures var addr := view[j].value.value;
            var cache: Cache := map[addr := Info(0, j, None)];
            Faithful(view, cache) && IsUpperBound(cache, addr, None) && IsLowerNeighbour(cache, addr, Some(addr))
  {
    var addr := view[j].value.value;
    EndOf(view[j].value);
    assert FaithfulAt(view, addr, Info(0, j, None));
  }

  /** A cached empty symbol that stands inside an earlier one hides the rest of it. */
  lemma EmptyInside(view: View, i: nat, j: nat)
    requires Readable(view) && Apart(view) && i < j < |view| && view[j].value.size == 0
    requires view[i].value.value < view[j].value.value < view[i].value.value + view[i].value.size
    ensures !AlwaysAnswers(view)
  {
    var addr := view[j].value.value;
    var cache: Cache := map[addr := Info(0, j, None)];
    assert Covers(view, i, addr);
    EmptyCached(view, j);
    hide Slow, Apart, Faithful, IsUpperBound, IsLowerNeighbour, Covers, End, CachedValue;
    assert cache[addr].index == j && |view| % W32 == |view|;
    var r := Search(view, cache, addr, None, Some(addr));
    assert r == Slow(view, cache, addr, j + 1, |view|);
    if r.0.Some? {
      var current := SlowHit(view, cache, addr, j + 1, |view|);
      OneCovers(view, current, i, addr);
    }
    hide Search;
    assert !AnswersFrom(view, cache, addr, None, Some(addr));
  }

  /** A cached symbol of 2^32 bytes or more is lost at its start. */
  lemma LongIsLost(view: View, i: nat)
    requires Sorted(view) && i < |view| && view[i].value.size >= W32
    ensures !AlwaysAnswers(view)
  {
    var s, addr := view[i].value, view[i].value.value;
    EndOf(s);
    var cache: Cache := map[End(s) := Info(s.size % W32, i, None)];
    assert FaithfulAt(view, End(s), cache[End(s)]);
    assert CachedValue(End(s), cache[End(s)]) > addr;
    hide End, CachedValue;
    var r := Search(view, cache, addr, Some(End(s)), None);
    assert r == Slow(view, cache, addr, 0, i);
    assert r.0.None? by {
      if r.0.Some? {
        var current := SlowHit(view, cache, addr, 0, i);
      }
    }
    assert Covers(view, i, addr);
    hide Slow, Search, Sorted;
    assert !AnswersFrom(view, cache, addr, Some(End(s)), None);
  }

  /** For a table in order, searches give the right answer with every faithful cache if and only if no empty symbol stands
      where another ends, and every size fits in 32 bits. */
  lemma SearchAnswersIff(view: View)
    requires Sorted(view)
    ensures AlwaysAnswers(view) <==> Harmless(view) && Short(view)
  {
    if Harmless(view) && Short(view) {
      forall cache: Cache, addr: nat, above: Option<nat>, below: Option<nat>
        ensures AnswersFrom(view, cache, addr, above, below)
      {
        if Faithful(view, cache) && IsUpperBound(cache, addr, above) && IsLowerNeighbour(cache, addr, below) {
          SearchAnswers(view, cache, addr, above, below);
        }
      }
    }
    hide AlwaysAnswers, Sorted;
    if !Harmless(view) {
      var j, i :| 0 <= j < |view| && 0 <= i < |view| && Hides(view[j].value, view[i].value);
      EmptyHides(view, j, i);
    }
    if !Short(view) {
      var i :| 0 <= i < |view| && view[i].value.size >= W32;
      LongIsLost(view, i);
    }
  }

  /** On the way to symbol i, the search between the bounds reads symbol a first. */
  predicate ReadsBefore(first: nat, last: nat, a: nat, i: nat)
    decreases last - first
  {
    first <= i < last &&
    var current: nat := first + (last - first) / 2;
    i != current && (a == current || if i < current then ReadsBefore(first, current, a, i) else ReadsBefore(current + 1, last, a, i))
  }

  /** Nothing that the search reads before symbol i takes its key. */
  ghost predicate ReachedFirst(view: View, first: nat, last: nat, i: nat)
    requires Readable(view) && i < |view|
  {
    forall j: nat :: j < |view| && ReadsBefore(first, last, j, i) ==> !Hides(view[j].value, view[i].value)
  }

  lemma ReachedOn(view: View, first: nat, last: nat, i: nat)
    requires Readable(view) && first <= i < last <= |view|
    ensures var current: nat := first + (last - first) / 2;
            ReachedFirst(view, first, last, i) <==>
              current == i || (!Hides(view[current].value, view[i].value)
                               && if i < current then ReachedFirst(view, first, current, i) else ReachedFirst(view, current + 1, last, i))
  {
    hide Hides, Readable;
    var current: nat := first + (last - first) / 2;
    if current != i {
      assert ReadsBefore(first, last, current, i);
    }
  }

  /** A symbol read on the way to the one that covers the address sends the search toward it, and has its key exactly if it
      is an empty one at its end. */
  lemma OnTheWay(view: View, cache: Cache, addr: nat, first: nat, last: nat, i: nat)
    requires Sorted(view) && first <= i < last <= |view| && Covers(view, i, addr)
    ensures var current: nat := first + (last - first) / 2;
            var s, cache' := view[current].value, Emplaced(cache, view[current].value, current);
            Slow(view, cache, addr, first, last) == if current == i then (Some(Hit(End(s), addr - s.value)), cache')
                                                    else if i < current then Slow(view, cache', addr, first, current)
                                                    else Slow(view, cache', addr, current + 1, last)
    ensures var current: nat := first + (last - first) / 2;
            var own, cache' := End(view[i].value), Emplaced(cache, view[current].value, current);
            own !in cache ==> (own in cache' <==> current == i || Hides(view[current].value, view[i].value))
    ensures var current: nat := first + (last - first) / 2;
            var own, cache' := End(view[i].value), Emplaced(cache, view[current].value, current);
            own !in cache && own in cache' ==> cache'[own].index == current
  {
    EndOf(view[first + (last - first) / 2].value);
    EndOf(view[i].value);
    hide End;
  }

  /** A symbol between the bounds that covers the address is found. */
  lemma {:induction false} SlowHits(view: View, cache: Cache, addr: nat, first: nat, last: nat, i: nat)
    requires Sorted(view) && first <= i < last <= |view| && Covers(view, i, addr)
    ensures var r := Slow(view, cache, addr, first, last); r.0 == Some(Hit(End(view[i].value), addr - view[i].value.value))
    decreases last - first
  {
    OnTheWay(view, cache, addr, first, last, i);
    hide Slow, Sorted, Covers, End, Emplaced, Hides;
    var current := first + (last - first) / 2;
    var cache' := Emplaced(cache, view[current].value, current);
    if i < current {
      SlowHits(view, cache', addr, first, current, i);
    } else if i > current {
      SlowHits(view, cache', addr, current + 1, last, i);
    }
  }

  /** The search for a symbol whose key is not cached yet keeps that symbol under it, unless it has read an empty one that
      stands at its end before. */
  lemma {:induction false} SlowReports(view: View, cache: Cache, addr: nat, first: nat, last: nat, i: nat)
    requires Sorted(view) && first <= i < last <= |view| && Covers(view, i, addr) && End(view[i].value) !in cache
    ensures var cache', own := Slow(view, cache, addr, first, last).1, End(view[i].value);
            own in cache' && (cache'[own].index == i <==> ReachedFirst(view, first, last, i))
    decreases last - first
  {
    var current := first + (last - first) / 2;
    ReachedOn(view, first, last, i);
    OnTheWay(view, cache, addr, first, last, i);
    hide Slow, Sorted, Covers, ReachedFirst, End, Hides, Emplaced;
    if current != i {
      var cache' := Emplaced(cache, view[current].value, current);
      if Hides(view[current].value, view[i].value) {
        SlowKeepsEntries(view, cache', addr, first, current);
        SlowKeepsEntries(view, cache', addr, current + 1, last);
      } else if i < current {
        SlowReports(view, cache', addr, first, current, i);
      } else {
        SlowReports(view, cache', addr, current + 1, last, i);
      }
    }
  }

  /** What the search for an address finds with nothing cached is right. */
  ghost predicate FirstAnswers(view: View, addr: nat) {
    var r := Search(view, map[], addr, None, None); Answers(view, addr, r.0, r.1)
  }

  lemma FirstSearch(view: View, addr: nat)
    requires |view| < W32
    ensures Search(view, map[], addr, None, None) == Slow(view, map[], addr, 0, |view|)
  {
    hide Slow;
  }

  lemma FirstFinds(view: View, i: nat, addr: nat)
    requires Sorted(view) && Covers(view, i, addr)
    ensures var first, own := Search(view, map[], addr, None, None), view[i].value;
            && first.0 == Some(Hit(End(own), addr - own.value)) && Faithful(view, first.1) && End(own) in first.1
            && (first.1[End(own)].index == i <==> ReachedFirst(view, 0, |view|, i))
  {
    hide Slow, Search, ReachedFirst, End;
    SlowHits(view, map[], addr, 0, |view|, i);
    SlowReports(view, map[], addr, 0, |view|, i);
    SlowKeepsFaithful(view, map[], addr, 0, |view|);
    FirstSearch(view, addr);
  }

  lemma FirstReports(view: View, i: nat, addr: nat)
    requires Sorted(view) && Covers(view, i, addr)
    ensures FirstAnswers(view, addr) <==> ReachedFirst(view, 0, |view|, i)
  {
    FirstFinds(view, i, addr);
    SortedIsApart(view);
    hide Search, Sorted, Apart, ReachedFirst, End;
    var first, key := Search(view, map[], addr, None, None), End(view[i].value);
    var index := first.1[key].index;
    assert FaithfulAt(view, key, first.1[key]);
    if Covers(view, index, addr) {
      OneCovers(view, i, index, addr);
    }
  }

  lemma FirstMisses(view: View, addr: nat)
    requires Readable(view) && forall i: nat :: !Covers(view, i, addr)
    ensures FirstAnswers(view, addr)
  {
    var r := Slow(view, map[], addr, 0, |view|);
    if r.0.Some? {
      var current := SlowHit(view, map[], addr, 0, |view|);
    }
  }

  /** With nothing cached, every search gives the right answer if and only if no empty symbol is read on the way to the
      symbol at whose end it stands. */
  lemma FirstAnswersIff(view: View)
    requires Sorted(view)
    ensures (forall addr: nat :: FirstAnswers(view, addr)) <==>
              forall i: nat :: i < |view| && view[i].value.size > 0 ==> ReachedFirst(view, 0, |view|, i)
  {
    hide FirstAnswers, ReachedFirst;
    forall i: nat, addr: nat | Covers(view, i, addr)
      ensures FirstAnswers(view, addr) <==> ReachedFirst(view, 0, |view|, i)
    {
      FirstReports(view, i, addr);
    }
    forall addr: nat | forall i: nat :: !Covers(view, i, addr)
      ensures FirstAnswers(view, addr)
    {
      FirstMisses(view, addr);
    }
    assert forall i: nat :: i < |view| && view[i].value.size > 0 ==> Covers(view, i, view[i].value.value);
  }

  /** Searching for a covered address with nothing cached finds its symbol; asking again gives the same answer if and only
      if the size of the symbol fits in 32 bits. */
  lemma AskedAgain(view: View, i: nat, addr: nat, above: Option<nat>, below: Option<nat>)
    requires Sorted(view) && Harmless(view) && Covers(view, i, addr)
    requires var cache := Search(view, map[], addr, None, None).1; IsUpperBound(cache, addr, above) && IsLowerNeighbour(cache, addr, below)
    ensures var s := view[i].value;
            var first := Search(view, map[], addr, None, None);
            && first.0 == Some(Hit(End(s), addr - s.value))
            && Faithful(view, first.1)
            && (Search(view, first.1, addr, above, below).0 == first.0 <==> s.size < W32)
  {
    assert ReachedFirst(view, 0, |view|, i);
    hide Search, Sorted, Harmless, Covers, ReachedFirst;
    FirstFinds(view, i, addr);
    var cache := Search(view, map[], addr, None, None).1;
    AboveIsOwn(view, cache, i, addr, above);
    SecondSearch(view, cache, i, addr, below);
  }

  lemma SecondSearch(view: View, cache: Cache, i: nat, addr: nat, below: Option<nat>)
    requires Sorted(view) && Faithful(view, cache) && Covers(view, i, addr) && (below.Some? ==> below.value in cache)
    requires End(view[i].value) in cache && cache[End(view[i].value)].index == i
    ensures var s := view[i].value;
            Search(view, cache, addr, Some(End(s)), below).0 == Some(Hit(End(s), addr - s.value)) <==> s.size < W32
  {
    var s := view[i].value;
    EndOf(s);
    var info := cache[End(s)];
    assert FaithfulAt(view, End(s), info);
    assert CachedValue(End(s), info) == s.value + (s.size - s.size % W32);
    hide End, CachedValue, Slow, Faithful;
    if CachedValue(End(s), info) > addr {
      var from := if below.Some? then cache[below.value].index + 1 else 0;
      if Slow(view, cache, addr, from, i).0.Some? {
        var current := SlowHit(view, cache, addr, from, i);
        SortedIsApart(view);
        OneCovers(view, current, i, addr);
      }
    }
  }

  /** The first cached key above an address in a cached symbol is the end of that symbol. */
  lemma AboveIsOwn(view: View, cache: Cache, i: nat, addr: nat, above: Option<nat>)
    requires Sorted(view) && Harmless(view) && Faithful(view, cache) && Covers(view, i, addr)
    requires End(view[i].value) in cache && cache[End(view[i].value)].index == i && IsUpperBound(cache, addr, above)
    ensures above == Some(End(view[i].value))
  {
    EndOf(view[i].value);
    assert above.Some?;
    var o := cache[above.value].index;
    assert FaithfulAt(view, above.value, cache[above.value]);
    EndOf(view[o].value);
    hide End;
    assert !Hides(view[o].value, view[i].value);
  }

  /** Such a cache comes about: an empty symbol that ends where another does is read first, and from then on the search
      reads the right symbol and reports the other. */
  lemma EmptySymbolHides(addr: nat)
    requires 0x1000 <= addr < 0x1010
    ensures var view := [Some(Sym(0x1000, 0x10, true, None)), Some(Sym(0x1010, 0, true, None))];
            var cache := map[0x1010 := Info(0, 1, None)];
            && Search(view, map[], 0x1010, None, None) == (None, cache)
            && Search(view, cache, addr, Some(0x1010), None) == (Some(Hit(0x1010, addr - 0x1000)), cache)
            && cache[0x1010].index == 1 && Covers(view, 0, addr)
  {
    var a, b := Sym(0x1000, 0x10, true, None), Sym(0x1010, 0, true, None);
    var view := [Some(a), Some(b)];
    var cache := map[0x1010 := Info(0, 1, None)];
    assert Emplaced(map[], b, 1) == cache && Emplaced(cache, a, 0) == cache;
    assert Slow(view, cache, 0x1010, 2, 2) == (None, cache);
    assert Slow(view, map[], 0x1010, 0, 2) == (None, cache);
    assert Slow(view, cache, addr, 0, 1) == (Some(Hit(0x1010, addr - 0x1000)), cache);
  }

  /** 29 symbols of 16 bytes, but for eight empty ones at the end of symbol 14 and one at the end of symbol 24. */
  function Crowded(): (view: View)
    ensures |view| == 29 && forall n :: 0 <= n < 29 ==> view[n] == Some(CrowdedAt(n))
  {
    seq(29, n requires 0 <= n => Some(CrowdedAt(n)))
  }

  function CrowdedAt(n: nat): Sym {
    if 15 <= n <= 22 then Sym(0xe10, 0, true, None)
    else if n == 25 then Sym(0x1810, 0, true, None)
    else Sym(0x100 * n, 0x10, true, None)
  }

  /** What the search for symbol 26 leaves in the cache. */
  function CrowdedCache(): (cache: Cache)
    ensures Faithful(Crowded(), cache) && 0xe10 in cache && 0x1a10 in cache
  {
    map[0xe10 := Info(0x10, 14, None), 0x1a10 := Info(0x10, 26, None)]
  }

  lemma CrowdedInOrder()
    ensures Sorted(Crowded())
  {
  }

  lemma CrowdedReaches(i: nat)
    requires i < 29 && CrowdedAt(i).size > 0 && Readable(Crowded())
    ensures ReachedFirst(Crowded(), 0, 29, i)
  {
    var view := Crowded();
    hide Crowded, Readable, ReadsBefore;
    if i == 14 {
      ReachedOn(view, 0, 29, 14);
    } else if i == 24 {
      hide ReachedFirst;
      ReachedOn(view, 23, 26, 24);
      ReachedOn(view, 23, 29, 24);
      ReachedOn(view, 15, 29, 24);
      ReachedOn(view, 0, 29, 24);
    } else {
      assert forall j: nat :: j < 29 ==> !Hides(view[j].value, view[i].value);
    }
  }

  lemma CrowdedIsReached()
    ensures Sorted(Crowded()) && forall addr: nat :: FirstAnswers(Crowded(), addr)
  {
    CrowdedInOrder();
    var view := Crowded();
    hide ReachedFirst, FirstAnswers;
    forall i: nat | i < |view| && view[i].value.size > 0
      ensures ReachedFirst(view, 0, |view|, i)
    {
      CrowdedReaches(i);
    }
    hide Sorted;
    FirstAnswersIff(view);
  }

  /** That every search is right as long as nothing is cached does not mean that it stays so: bounds taken from the cache
      can lead a later search to an empty symbol first. */
  lemma LaterSearchGoesWrong()
    ensures Sorted(Crowded()) && forall addr: nat :: FirstAnswers(Crowded(), addr)
    ensures Search(Crowded(), map[], 0x1a00, None, None) == (Some(Hit(0x1a10, 0)), CrowdedCache())
    ensures IsUpperBound(CrowdedCache(), 0x1800, Some(0x1a10)) && IsLowerNeighbour(CrowdedCache(), 0x1800, Some(0xe10))
    ensures Search(Crowded(), CrowdedCache(), 0x1800, Some(0x1a10), Some(0xe10)) == (Some(Hit(0x1810, 0)), LaterCache())
    ensures Covers(Crowded(), 24, 0x1800) && !Answers(Crowded(), 0x1800, Some(Hit(0x1810, 0)), LaterCache())
  {
    CrowdedIsReached();
    FirstOfCrowded();
    SecondOfCrowded();
    hide Slow, Sorted, FirstAnswers;
  }

  function LaterCache(): Cache {
    CrowdedCache()[0x1710 := Info(0x10, 23, None)][0x1810 := Info(0, 25, None)]
  }

  lemma FirstOfCrowded()
    ensures Slow(Crowded(), map[], 0x1a00, 0, 29) == (Some(Hit(0x1a10, 0)), CrowdedCache())
  {
    var view := Crowded();
    var one: Cache := map[0xe10 := Info(0x10, 14, None)];
    hide Crowded;
    assert Slow(view, one, 0x1a00, 23, 29) == (Some(Hit(0x1a10, 0)), CrowdedCache());
    assert Slow(view, one, 0x1a00, 15, 29) == Slow(view, one, 0x1a00, 23, 29);
    assert Slow(view, map[], 0x1a00, 0, 29) == Slow(view, one, 0x1a00, 15, 29);
  }

  lemma SecondOfCrowded()
    ensures Slow(Crowded(), CrowdedCache(), 0x1800, 15, 26) == (Some(Hit(0x1810, 0)), LaterCache())
  {
    var view, cache := Crowded(), CrowdedCache();
    var three: Cache := cache[0x1710 := Info(0x10, 23, None)];
    hide Crowded;
    assert Slow(view, LaterCache(), 0x1800, 24, 25) == (Some(Hit(0x1810, 0)), LaterCache());
    assert Slow(view, three, 0x1800, 24, 26) == Slow(view, LaterCache(), 0x1800, 24, 25);
    assert Slow(view, cache, 0x1800, 21, 26) == Slow(view, three, 0x1800, 24, 26);
    assert Slow(view, cache, 0x1800, 15, 26) == Slow(view, cache, 0x1800, 21, 26);
  }
}
