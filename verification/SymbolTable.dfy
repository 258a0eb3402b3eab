/** The symbols of an ELF file: a table that is searched as it stands if it is sorted, and through a table of function
    indices in order of address otherwise. */
module SymbolTable {
  import opened OrderedMap
  import opened SymbolSearch

  const BUFFER := 1024

  /** Where the symbols are: `count` entries of `entrySize` bytes from `offset` on, `symSize` of which are the symbol; what
      symbol the bytes at an address are, and how many bytes can be read from an address on. */
  datatype Layout = Layout(offset: nat, count: nat, entrySize: nat, symSize: nat, at: nat -> Sym, readable: nat -> nat)
  {
    ghost predicate Proper() {
      && 0 < symSize <= entrySize && symSize <= BUFFER && count < W32
      && forall a, k :: 0 <= k <= readable(a) ==> readable(Plus(a, k)) == readable(a) - k
    }

    static function Plus(a: nat, k: nat): nat {
      a + k
    }

    function Address(i: nat): nat {
      offset + i * entrySize
    }

    function Entry(i: nat): Option<Sym> {
      if readable(Address(i)) < symSize then None else Some(at(Address(i)))
    }

    function Table(): (r: View)
      ensures |r| == count && forall i :: 0 <= i < count ==> r[i] == Entry(i)
    {
      seq(count, i requires 0 <= i < count => Entry(i))
    }
  }

  /** The table as seen through a list of indices. */
  function Through(table: View, remap: seq<nat>): (r: View)
    requires forall i :: 0 <= i < |remap| ==> remap[i] < |table|
    ensures |r| == |remap| && forall i :: 0 <= i < |r| ==> r[i] == table[remap[i]]
  {
    seq(|remap|, i requires 0 <= i < |remap| => table[remap[i]])
  }

  ghost predicate IsFunction(table: View, i: nat) {
    i < |table| && table[i].Some? && table[i].value.isFunc
  }

  /** Strictly increasing by address, with for each function address exactly one index, the lowest. */
  ghost predicate IsRemap(table: View, remap: seq<nat>) {
    && |remap| <= |table|
    && (forall i :: 0 <= i < |remap| ==> IsFunction(table, remap[i]))
    && (forall i, j :: 0 <= i < j < |remap| ==> table[remap[i]].value.value < table[remap[j]].value.value)
    && forall f: nat :: IsFunction(table, f) ==> Represented(table, remap, f)
  }

  /** An index no higher stands for the function. */
  ghost predicate Represented(table: View, remap: seq<nat>, f: nat)
    requires IsFunction(table, f)
  {
    exists i :: 0 <= i < |remap| && IsFunction(table, remap[i]) && remap[i] <= f && table[remap[i]].value.value == table[f].value.value
  }

  /** The symbols that are read before the first that cannot be. */
  ghost predicate FirstUnreadable(table: View, visited: nat) {
    && visited <= |table| && (forall i :: 0 <= i < visited ==> table[i].Some?)
    && (visited < |table| ==> table[visited].None?)
  }

  /** The remap table of the symbols that can be read. */
  ghost predicate IsRemapUpTo(table: View, visited: nat, remap: seq<nat>) {
    FirstUnreadable(table, visited) && IsRemap(table[..visited], remap)
  }

  lemma StrideIn(es: nat, base: nat, t: nat, count: nat, symSize: nat)
    requires base <= count && t * es + symSize <= (count - base) * es && symSize > 0
    ensures base + t < count && (base + t) * es == base * es + t * es
  {
    assert (count - base) * es - t * es == (count - base - t) * es;
  }

  // The order of the remap table: by address, and by index where addresses are equal.

  predicate Before(addrs: seq<nat>, a: nat, b: nat)
    requires a < |addrs| && b < |addrs|
  {
    addrs[a] < addrs[b] || (addrs[a] == addrs[b] && a <= b)
  }

  ghost predicate Within(addrs: seq<nat>, xs: seq<nat>) {
    forall i :: 0 <= i < |xs| ==> xs[i] < |addrs|
  }

  ghost predicate InOrder(addrs: seq<nat>, xs: seq<nat>)
    requires Within(addrs, xs)
  {
    forall i, j :: 0 <= i < j < |xs| ==> Before(addrs, xs[i], xs[j])
  }

  method Insert(addrs: seq<nat>, xs: seq<nat>, x: nat) returns (r: seq<nat>)
    requires Within(addrs, xs) && InOrder(addrs, xs) && x < |addrs|
    ensures multiset(r) == multiset(xs) + multiset{x} && Within(addrs, r) && InOrder(addrs, r)
  {
    var i := 0;
    while i < |xs| && Before(addrs, xs[i], x)
      invariant i <= |xs| && forall k :: 0 <= k < i ==> Before(addrs, xs[k], x)
    {
      i := i + 1;
    }
    r := xs[..i] + [x] + xs[i..];
    assert xs == xs[..i] + xs[i..];
    InsertedInOrder(addrs, xs, i, x, r);
  }

  lemma InsertedInOrder(addrs: seq<nat>, xs: seq<nat>, i: nat, x: nat, r: seq<nat>)
    requires Within(addrs, xs) && InOrder(addrs, xs) && x < |addrs| && i <= |xs| && r == xs[..i] + [x] + xs[i..]
    requires forall k :: 0 <= k < i ==> Before(addrs, xs[k], x)
    requires i < |xs| ==> !Before(addrs, xs[i], x)
    ensures Within(addrs, r) && InOrder(addrs, r)
  {
    forall k | 0 <= k < |r|
      ensures r[k] == if k < i then xs[k] else if k == i then x else xs[k - 1]
    {
    }
    forall k, l | 0 <= k < l < |r|
      ensures r[k] < |addrs| && r[l] < |addrs| && Before(addrs, r[k], r[l])
    {
      if l > i && l - 1 > i {
        assert Before(addrs, xs[i], xs[l - 1]);
      }
    }
  }

  method Sort(addrs: seq<nat>, xs: seq<nat>) returns (r: seq<nat>)
    requires Within(addrs, xs)
    ensures multiset(r) == multiset(xs) && Within(addrs, r) && InOrder(addrs, r)
  {
    r := [];
    var i := 0;
    while i < |xs|
      invariant i <= |xs| && multiset(r) == multiset(xs[..i]) && Within(addrs, r) && InOrder(addrs, r)
    {
      r := Insert(addrs, r, xs[i]);
      assert xs[..i + 1] == xs[..i] + [xs[i]];
      i := i + 1;
    }
    assert xs[..|xs|] == xs;
  }

  /** Some index in `kept`, no higher, has the address of `x`. */
  ghost predicate Stands(addrs: seq<nat>, kept: seq<nat>, x: nat)
    requires Within(addrs, kept) && x < |addrs|
  {
    exists i :: 0 <= i < |kept| && kept[i] <= x && addrs[kept[i]] == addrs[x]
  }

  /** Keeps the first of each run of equal addresses. */
  method Unique(addrs: seq<nat>, xs: seq<nat>) returns (kept: seq<nat>)
    requires Within(addrs, xs) && InOrder(addrs, xs)
    ensures |kept| <= |xs| && Within(addrs, kept) && forall x :: x in kept ==> x in xs
    ensures forall i, j :: 0 <= i < j < |kept| ==> addrs[kept[i]] < addrs[kept[j]]
    ensures forall x :: x in xs ==> Stands(addrs, kept, x)
  {
    hide Stands;
    kept := [];
    var k := 0;
    while k < |xs|
      invariant k <= |xs| && |kept| <= k && Within(addrs, kept) && forall x :: x in kept ==> x in xs[..k]
      invariant forall i, j :: 0 <= i < j < |kept| ==> addrs[kept[i]] < addrs[kept[j]]
      invariant forall x :: x in xs[..k] ==> Stands(addrs, kept, x)
      invariant k > 0 ==> kept != [] && addrs[kept[|kept| - 1]] == addrs[xs[k - 1]]
    {
      ghost var before := kept;
      assert xs[..k + 1] == xs[..k] + [xs[k]];
      assert k > 0 ==> Before(addrs, xs[k - 1], xs[k]);
      if kept == [] || addrs[kept[|kept| - 1]] != addrs[xs[k]] {
        kept := kept + [xs[k]];
        StandsGrow(addrs, before, xs[..k], xs[k]);
      } else {
        StandsLast(addrs, kept, xs, k);
      }
      k := k + 1;
    }
    assert xs[..|xs|] == xs;
  }

  lemma StandsGrow(addrs: seq<nat>, kept: seq<nat>, xs: seq<nat>, x: nat)
    requires Within(addrs, kept) && Within(addrs, xs) && x < |addrs| && forall y :: y in xs ==> Stands(addrs, kept, y)
    ensures Within(addrs, kept + [x]) && Stands(addrs, kept + [x], x) && forall y :: y in xs ==> Stands(addrs, kept + [x], y)
  {
    var grown := kept + [x];
    assert grown[|kept|] == x;
    forall y | y in xs
      ensures Stands(addrs, grown, y)
    {
      var i :| 0 <= i < |kept| && kept[i] <= y && addrs[kept[i]] == addrs[y];
      assert grown[i] == kept[i];
    }
  }

  lemma StandsLast(addrs: seq<nat>, kept: seq<nat>, xs: seq<nat>, k: nat)
    requires Within(addrs, kept) && Within(addrs, xs) && InOrder(addrs, xs) && k < |xs|
    requires kept != [] && kept[|kept| - 1] in xs[..k] && addrs[kept[|kept| - 1]] == addrs[xs[k]]
    ensures Stands(addrs, kept, xs[k])
  {
    var last := kept[|kept| - 1];
    var i :| 0 <= i < k && xs[i] == last;
    assert Before(addrs, xs[i], xs[k]);
  }

  lemma AtLeastOneStride(es: nat, n: nat)
    requires n > 0
    ensures n * es >= es
  {
  }

  /** What has been read so far. */
  ghost predicate Read(l: Layout, addrs: seq<nat>, functions: seq<nat>) {
    && |addrs| <= l.count
    && (forall i :: 0 <= i < |addrs| ==> l.Entry(i).Some? && l.Entry(i).value.value == addrs[i])
    && forall f: nat :: f in functions <==> f < |addrs| && l.Entry(f).Some? && l.Entry(f).value.isFunc
  }

  lemma ReadOne(l: Layout, addrs: seq<nat>, functions: seq<nat>, sym: Sym)
    requires Read(l, addrs, functions) && |addrs| < l.count && l.Entry(|addrs|) == Some(sym)
    ensures Read(l, addrs + [sym.value], if sym.isFunc then functions + [|addrs|] else functions)
  {
  }

  /** One batch: the symbols that lie whole in the `size` bytes read at the address of the next symbol. */
  method ReadBatch(l: Layout, size: nat, addrs: seq<nat>, functions: seq<nat>) returns (addrs': seq<nat>, functions': seq<nat>)
    requires l.Proper() && Read(l, addrs, functions) && |functions| <= |addrs| < l.count
    requires l.symSize <= size <= l.readable(l.Address(|addrs|)) && size <= (l.count - |addrs|) * l.entrySize
    ensures Read(l, addrs', functions') && |functions'| <= |addrs'| <= l.count && |addrs| < |addrs'|
  {
    hide Read;
    addrs', functions' := addrs, functions;
    var start := l.Address(|addrs|);
    var offset := 0;
    ghost var t: nat := 0;
    while offset + l.symSize <= size
      invariant |addrs'| == |addrs| + t <= l.count && offset == t * l.entrySize && |functions'| <= |addrs'|
      invariant t == 0 ==> offset + l.symSize <= size
      invariant Read(l, addrs', functions')
      decreases size + l.entrySize - offset
    {
      StrideIn(l.entrySize, |addrs|, t, l.count, l.symSize);
      assert l.readable(Layout.Plus(start, offset)) == l.readable(start) - offset;
      assert start + offset == l.Address(|addrs'|);
      var sym := l.at(start + offset);
      ReadOne(l, addrs', functions', sym);
      if sym.isFunc {
        functions' := functions' + [|addrs'|];
      }
      addrs' := addrs' + [sym.value];
      assert (t + 1) * l.entrySize == t * l.entrySize + l.entrySize;
      offset, t := offset + l.entrySize, t + 1;
    }
  }

  /** Reading the symbols in batches of at most 1024 bytes: each symbol once and in order, wherever the batches end, up to
      the first that cannot be read. */
  method ReadSymbols(l: Layout) returns (addrs: seq<nat>, functions: seq<nat>)
    requires l.Proper()
    ensures FirstUnreadable(l.Table(), |addrs|) && |functions| <= |addrs|
    ensures forall i :: 0 <= i < |addrs| ==> l.Table()[i].value.value == addrs[i]
    ensures forall f: nat :: f in functions <==> f < |addrs| && IsFunction(l.Table(), f)
  {
    addrs, functions := [], [];
    while |addrs| < l.count
      invariant |functions| <= |addrs| <= l.count && Read(l, addrs, functions)
      decreases l.count - |addrs|
    {
      hide Read;
      var left := (l.count - |addrs|) * l.entrySize;
      AtLeastOneStride(l.entrySize, l.count - |addrs|);
      var read := if BUFFER < left then BUFFER else left;
      var start := l.Address(|addrs|);
      var size := if l.readable(start) < read then l.readable(start) else read;
      if size < l.symSize {
        assert l.Entry(|addrs|).None?;
        break;
      }
      addrs, functions := ReadBatch(l, size, addrs, functions);
    }
  }

  /** The remap table of a file. */
  method BuildRemapTable(l: Layout) returns (remap: seq<nat>)
    requires l.Proper()
    ensures exists visited: nat :: IsRemapUpTo(l.Table(), visited, remap)
  {
    var addrs, functions := ReadSymbols(l);
    ghost var visited := |addrs|;
    assert Within(addrs, functions) by {
      assert forall i :: 0 <= i < |functions| ==> functions[i] in functions;
    }
    var sorted := Sort(addrs, functions);
    remap := Unique(addrs, sorted);
    assert |sorted| == |multiset(sorted)| == |multiset(functions)| == |functions|;
    SameMembers(sorted, functions);
    SortedFunctions(l.Table(), visited, addrs, functions, sorted, remap);
    assert IsRemapUpTo(l.Table(), visited, remap);
  }

  lemma SameMembers(a: seq<nat>, b: seq<nat>)
    requires multiset(a) == multiset(b)
    ensures forall x: nat :: x in a <==> x in b
  {
    forall x: nat
      ensures x in a <==> x in b
    {
      assert x in a <==> x in multiset(a);
      assert x in b <==> x in multiset(b);
    }
  }

  lemma SortedFunctions(table: View, visited: nat, addrs: seq<nat>, functions: seq<nat>, sorted: seq<nat>, remap: seq<nat>)
    requires FirstUnreadable(table, visited) && visited == |addrs| && |remap| <= |sorted| == |functions| <= visited
    requires forall i :: 0 <= i < |addrs| ==> table[i].value.value == addrs[i]
    requires forall f: nat :: f in functions <==> f < |addrs| && IsFunction(table, f)
    requires forall x: nat :: x in sorted <==> x in functions
    requires Within(addrs, sorted) && Within(addrs, remap) && forall x :: x in remap ==> x in sorted
    requires forall i, j :: 0 <= i < j < |remap| ==> addrs[remap[i]] < addrs[remap[j]]
    requires forall x :: x in sorted ==> Stands(addrs, remap, x)
    ensures IsRemap(table[..visited], remap)
  {
    var read := table[..visited];
    assert forall f: nat :: IsFunction(read, f) <==> f < visited && IsFunction(table, f);
    forall i | 0 <= i < |remap|
      ensures IsFunction(read, remap[i])
    {
      assert remap[i] in remap;
    }
    forall f: nat | IsFunction(read, f)
      ensures Represented(read, remap, f)
    {
      assert f in sorted && Stands(addrs, remap, f);
      var i :| 0 <= i < |remap| && remap[i] <= f && addrs[remap[i]] == addrs[f];
      assert IsFunction(read, remap[i]);
    }
  }

  ghost predicate Shadows(e: Sym, f: Sym, eFirst: bool) {
    e.size == 0 && f.size > 0 && (f.value < e.value < f.value + f.size || (e.value == f.value && eFirst))
  }

  /** No empty function stands inside another function, or at its start with a lower index. */
  ghost predicate EmptiesAway(table: View) {
    forall e: nat, f: nat :: IsFunction(table, e) && IsFunction(table, f) ==> !Shadows(table[e].value, table[f].value, e < f)
  }

  /** Every function that covers anything is in the remap table. */
  ghost predicate MissesNone(table: View, remap: seq<nat>) {
    forall f: nat :: IsFunction(table, f) && table[f].value.size > 0 ==> f in remap
  }

  /** A table in any order that lookups give the right names for. */
  ghost predicate Loose(table: View) {
    Fair(table) && EmptiesAway(table)
  }

  lemma RemapIndices(table: View, remap: seq<nat>)
    requires IsRemap(table, remap)
    ensures forall i :: 0 <= i < |remap| ==> remap[i] < |table| && IsFunction(table, remap[i])
  {
    forall i | 0 <= i < |remap|
      ensures IsFunction(table, remap[i])
    {
    }
  }

  lemma AwaySorts(table: View, remap: seq<nat>)
    requires Fair(table) && IsRemap(table, remap) && EmptiesAway(table)
    requires forall i :: 0 <= i < |remap| ==> remap[i] < |table|
    ensures Sorted(Through(table, remap))
  {
    RemapIndices(table, remap);
    var view := Through(table, remap);
    forall i, j | 0 <= i < j < |view|
      ensures view[i].value.value + view[i].value.size <= view[j].value.value
    {
      InOrderApart(table, remap[i], remap[j]);
    }
  }

  lemma InOrderApart(table: View, a: nat, b: nat)
    requires Readable(table) && Apart(table) && EmptiesAway(table) && IsFunction(table, a) && IsFunction(table, b)
    requires table[a].value.value < table[b].value.value
    ensures table[a].value.value + table[a].value.size <= table[b].value.value
  {
    assert !Shadows(table[b].value, table[a].value, b < a);
    assert ApartAt(table[a].value, table[b].value);
    hide Apart, EmptiesAway;
  }

  lemma AwayMissesNone(table: View, remap: seq<nat>)
    requires Fair(table) && IsRemap(table, remap) && EmptiesAway(table)
    ensures MissesNone(table, remap)
  {
    forall f: nat | IsFunction(table, f) && table[f].value.size > 0
      ensures f in remap
    {
      assert Represented(table, remap, f);
      var i :| 0 <= i < |remap| && IsFunction(table, remap[i]) && remap[i] <= f && table[remap[i]].value.value == table[f].value.value;
      OneStart(table, remap[i], f);
    }
  }

  lemma OneStart(table: View, g: nat, f: nat)
    requires Readable(table) && Apart(table) && EmptiesAway(table) && IsFunction(table, g) && IsFunction(table, f)
    requires g <= f && table[g].value.value == table[f].value.value && table[f].value.size > 0
    ensures g == f
  {
    assert !Shadows(table[g].value, table[f].value, g < f);
  }

  lemma ApartThrough(table: View, remap: seq<nat>)
    requires Fair(table) && IsRemap(table, remap) && forall i :: 0 <= i < |remap| ==> remap[i] < |table|
    ensures var view := Through(table, remap); Readable(view) && Apart(view)
  {
    RemapIndices(table, remap);
    var view := Through(table, remap);
    forall i, j | 0 <= i < j < |view|
      ensures ApartAt(view[i].value, view[j].value)
    {
      assert table[remap[i]].value.value < table[remap[j]].value.value;
    }
  }

  lemma EmptyOf(view: View, l: nat, i: nat)
    requires Readable(view) && Apart(view) && l < i < |view|
    requires view[l].value.value <= view[i].value.value < view[l].value.value + view[l].value.size
    ensures view[i].value.size == 0
  {
    assert ApartAt(view[l].value, view[i].value);
  }

  /** An empty function in the way of one that is in the remap table hides the rest of it from the searches. */
  lemma ShadowedGoesWrong(table: View, remap: seq<nat>)
    requires Fair(table) && IsRemap(table, remap) && forall i :: 0 <= i < |remap| ==> remap[i] < |table|
    requires MissesNone(table, remap) && !EmptiesAway(table)
    ensures !AlwaysAnswers(Through(table, remap))
  {
    hide AlwaysAnswers, Fair, IsRemap;
    var e: nat, f: nat :| IsFunction(table, e) && IsFunction(table, f) && Shadows(table[e].value, table[f].value, e < f);
    var l, i := PlacesOf(table, remap, e, f);
    ApartThrough(table, remap);
    hide MissesNone, EmptiesAway, Apart;
    EmptyOf(Through(table, remap), l, i);
    EmptyInside(Through(table, remap), l, i);
  }

  /** Where the two stand in the remap table: the empty one, or one at the same address, behind the other. */
  lemma PlacesOf(table: View, remap: seq<nat>, e: nat, f: nat) returns (l: nat, i: nat)
    requires IsRemap(table, remap) && MissesNone(table, remap) && IsFunction(table, e) && IsFunction(table, f)
    requires Shadows(table[e].value, table[f].value, e < f)
    ensures l < i < |remap| && remap[l] == f && IsFunction(table, remap[i])
    ensures table[remap[i]].value.value == table[e].value.value && table[e].value.value > table[f].value.value
  {
    l :| l < |remap| && remap[l] == f;
    assert Represented(table, remap, e);
    i :| i < |remap| && IsFunction(table, remap[i]) && remap[i] <= e && table[remap[i]].value.value == table[e].value.value;
  }

  /** If no empty function gets in the way, searches through the remap table give the right answers. */
  lemma RemapOfLoose(table: View, remap: seq<nat>)
    requires Loose(table) && IsRemap(table, remap)
    ensures forall i :: 0 <= i < |remap| ==> remap[i] < |table|
    ensures Good(Through(table, remap)) && MissesNone(table, remap)
  {
    RemapIndices(table, remap);
    hide IsRemap, EmptiesAway, MissesNone, Apart, Short, Harmless;
    AwaySorts(table, remap);
    AwayMissesNone(table, remap);
    FairThrough(table, remap);
  }

  lemma FairThrough(table: View, remap: seq<nat>)
    requires Readable(table) && Harmless(table) && Short(table) && forall i :: 0 <= i < |remap| ==> remap[i] < |table|
    requires Readable(Through(table, remap))
    ensures Harmless(Through(table, remap)) && Short(Through(table, remap))
  {
    var view := Through(table, remap);
    forall i, j | 0 <= i < |view| && 0 <= j < |view|
      ensures !Hides(view[i].value, view[j].value)
    {
      assert !Hides(table[remap[i]].value, table[remap[j]].value);
    }
  }

  /** The remap table of a table in any order has every function that covers anything, and searches through it give the
      right answers, if and only if no empty function gets in the way of another. */
  lemma RemapAnswersIff(table: View, remap: seq<nat>)
    requires Fair(table) && IsRemap(table, remap)
    ensures forall i :: 0 <= i < |remap| ==> remap[i] < |table|
    ensures AlwaysAnswers(Through(table, remap)) && MissesNone(table, remap) <==> EmptiesAway(table)
  {
    RemapIndices(table, remap);
    hide IsRemap, Apart, Short, Harmless, AlwaysAnswers, MissesNone, EmptiesAway;
    if EmptiesAway(table) {
      RemapOfLoose(table, remap);
      SearchAnswersIff(Through(table, remap));
    } else if MissesNone(table, remap) {
      ShadowedGoesWrong(table, remap);
    }
  }

  /** An empty function is read first, and the search goes on behind it: the rest of the function around it is lost even
      with nothing cached. */
  lemma EmptyFunctionHides(addr: nat)
    requires 0x1008 <= addr < 0x1010
    ensures var table := [Some(Sym(0x1000, 0x10, true, None)), Some(Sym(0x1008, 0, true, None))];
            && Fair(table) && IsRemap(table, [0, 1]) && Covers(table, 0, addr)
            && Search(Through(table, [0, 1]), map[], addr, None, None) == (None, map[0x1008 := Info(0, 1, None)])
  {
    var e := Sym(0x1008, 0, true, None);
    var table := [Some(Sym(0x1000, 0x10, true, None)), Some(e)];
    WayTable(table);
    hide Fair, IsRemap;
    var cache := map[0x1008 := Info(0, 1, None)];
    assert Emplaced(map[], e, 1) == cache;
    assert Slow(table, cache, addr, 2, 2) == (None, cache);
  }

  lemma WayTable(table: View)
    requires table == [Some(Sym(0x1000, 0x10, true, None)), Some(Sym(0x1008, 0, true, None))]
    ensures Fair(table) && IsRemap(table, [0, 1]) && Through(table, [0, 1]) == table
  {
    assert Through(table, [0, 1]) == table;
  }

  /** The function that covers an address, by name. */
  ghost predicate Names(table: View, addr: nat, name: Option<string>, offset: nat) {
    match name
    case None => forall i: nat :: !(Covers(table, i, addr) && table[i].value.isFunc && table[i].value.name.Some?)
    case Some(n) => exists i: nat :: Covers(table, i, addr) && NamedAt(table, i, n, addr, offset)
  }

  ghost predicate NamedAt(table: View, i: nat, n: string, addr: nat, offset: nat)
    requires i < |table| && table[i].Some?
  {
    table[i].value.isFunc && table[i].value.name == Some(n) && addr == table[i].value.value + offset
  }

  // Names in the cache are those of the table.

  ghost predicate NamesKnown(view: View, cache: Cache) {
    forall k :: k in cache && cache[k].name.Some? ==> KnownName(view, cache[k])
  }

  ghost predicate KnownName(view: View, info: Info) {
    && info.index < |view| && view[info.index].Some?
    && view[info.index].value.isFunc && view[info.index].value.name == info.name
  }

  lemma {:induction false} SlowKeepsNames(view: View, cache: Cache, addr: nat, first: nat, last: nat)
    requires last <= |view| && NamesKnown(view, cache)
    ensures NamesKnown(view, Slow(view, cache, addr, first, last).1)
    decreases last - first
  {
    hide KnownName;
    if first < last {
      var current := first + (last - first) / 2;
      if view[current].Some? {
        var cache' := Emplaced(cache, view[current].value, current);
        assert NamesKnown(view, cache');
        SlowKeepsNames(view, cache', addr, first, current);
        SlowKeepsNames(view, cache', addr, current + 1, last);
      }
    }
  }

  /** What a name lookup gets out of what a search found. */
  lemma FoundName(view: View, addr: nat, h: Hit, cache: Cache)
    requires Sound(view, addr, h, cache) && NamesKnown(view, cache) && Readable(view) && Apart(view)
    ensures view[cache[h.key].index].Some?
    ensures var s := view[cache[h.key].index].value;
            && Names(view, addr, if s.isFunc then s.name else None, h.offset)
            && (cache[h.key].name.Some? ==> s.isFunc && s.name == cache[h.key].name)
  {
    hide Apart;
    var i := cache[h.key].index;
    var s := view[i].value;
    assert cache[h.key].name.Some? ==> KnownName(view, cache[h.key]);
    if s.isFunc && s.name.Some? {
      assert Covers(view, i, addr) && NamedAt(view, i, s.name.value, addr, h.offset);
    } else {
      forall j: nat
        ensures !(Covers(view, j, addr) && view[j].value.isFunc && view[j].value.name.Some?)
      {
        if Covers(view, j, addr) {
          OneCovers(view, i, j, addr);
        }
      }
    }
  }

  /** What the remap table names, the table names. */
  lemma NamesThrough(table: View, remap: seq<nat>, addr: nat, name: Option<string>, offset: nat)
    requires Loose(table) && IsRemap(table, remap)
    requires forall i :: 0 <= i < |remap| ==> remap[i] < |table|
    requires Names(Through(table, remap), addr, name, offset)
    ensures Names(table, addr, name, offset)
  {
    RemapOfLoose(table, remap);
    hide Loose, IsRemap, Good, Names, MissesNone, Through;
    if name.None? {
      NoneThrough(table, remap, addr, offset);
    } else {
      SomeThrough(table, remap, addr, name, offset);
    }
  }

  lemma NoneThrough(table: View, remap: seq<nat>, addr: nat, offset: nat)
    requires MissesNone(table, remap) && forall i :: 0 <= i < |remap| ==> remap[i] < |table|
    requires Names(Through(table, remap), addr, None, offset)
    ensures Names(table, addr, None, offset)
  {
    var view := Through(table, remap);
    forall f: nat
      ensures !(Covers(table, f, addr) && table[f].value.isFunc && table[f].value.name.Some?)
    {
      if Covers(table, f, addr) && table[f].value.isFunc {
        assert IsFunction(table, f) && table[f].value.size > 0;
        var i: nat :| i < |remap| && remap[i] == f;
        assert view[i] == table[f];
        assert !(Covers(view, i, addr) && view[i].value.isFunc && view[i].value.name.Some?);
      }
    }
  }

  lemma SomeThrough(table: View, remap: seq<nat>, addr: nat, name: Option<string>, offset: nat)
    requires name.Some? && forall i :: 0 <= i < |remap| ==> remap[i] < |table|
    requires Names(Through(table, remap), addr, name, offset)
    ensures Names(table, addr, name, offset)
  {
    var view := Through(table, remap);
    var i: nat :| Covers(view, i, addr) && NamedAt(view, i, name.value, addr, offset);
    assert view[i] == table[remap[i]];
    assert Covers(table, remap[i], addr) && NamedAt(table, remap[i], name.value, addr, offset);
  }

  lemma NothingNamed(view: View, addr: nat, cache: Cache)
    requires Answers(view, addr, None, cache)
    ensures Names(view, addr, None, 0)
  {
  }

  lemma RemapIsInRange(table: View, visited: nat, remap: seq<nat>)
    requires IsRemapUpTo(table, visited, remap)
    ensures forall i :: 0 <= i < |remap| ==> remap[i] < |table|
  {
    assert forall i :: 0 <= i < |remap| ==> IsFunction(table[..visited], remap[i]);
  }

  lemma NothingCached(view: View)
    ensures NamesKnown(view, map[]) && Faithful(view, map[])
  {
  }

  lemma AllRead(table: View, visited: nat)
    requires Readable(table) && FirstUnreadable(table, visited)
    ensures visited == |table| && table[..visited] == table
  {
  }

  lemma InfoInRange(view: View, cache: Cache, key: nat)
    requires Faithful(view, cache) && key in cache
    ensures cache[key].index < |view|
  {
    assert FaithfulAt(view, key, cache[key]);
  }

  lemma NameCached(view: View, cache: Cache, key: nat, name: Option<string>)
    requires Faithful(view, cache) && NamesKnown(view, cache) && key in cache && cache[key].index < |view|
    requires view[cache[key].index].Some? && view[cache[key].index].value.isFunc && view[cache[key].index].value.name == name
    ensures var cache' := cache[key := cache[key].(name := name)]; Faithful(view, cache') && NamesKnown(view, cache')
  {
    var cache' := cache[key := cache[key].(name := name)];
    forall k | k in cache'
      ensures FaithfulAt(view, k, cache'[k])
    {
      assert FaithfulAt(view, k, cache[k]);
    }
  }

  class Symbols {
    const l: Layout
    var symbols: Cache
    var remap: Option<seq<nat>>

    ghost predicate RemapInRange()
      reads this`remap
    {
      remap.Some? ==> forall i :: 0 <= i < |remap.value| ==> remap.value[i] < l.count
    }

    /** The table the searches go through. */
    ghost function CurrentView(): View
      requires RemapInRange()
      reads this`remap
    {
      if remap.None? then l.Table() else Through(l.Table(), remap.value)
    }

    ghost predicate Remapped()
      reads this`remap
    {
      remap.Some? ==> exists visited: nat :: IsRemapUpTo(l.Table(), visited, remap.value)
    }

    ghost predicate Valid()
      reads this
    {
      && l.Proper() && Remapped() && RemapInRange()
      && Faithful(CurrentView(), symbols) && NamesKnown(CurrentView(), symbols)
    }

    constructor (l: Layout)
      requires l.Proper()
      ensures Valid() && this.l == l && remap == None && symbols == map[]
    {
      this.l := l;
      symbols, remap := map[], None;
    }

    method ReadSymbol(current: nat) returns (s: Option<Sym>)
      requires RemapInRange() && current < |CurrentView()|
      ensures s == CurrentView()[current]
    {
      var symbolIndex := if remap.Some? then remap.value[current] else current;
      s := l.Entry(symbolIndex);
    }

    /** The search with its cache; see Search for what it computes. */
    method BinarySearch(addr: nat) returns (hit: Option<Hit>)
      requires Valid()
      modifies this`symbols
      ensures Valid() && (hit.Some? ==> hit.value.key in symbols)
      ensures forall above, below :: IsUpperBound(old(symbols), addr, above) && IsLowerNeighbour(old(symbols), addr, below) ==>
                (hit, symbols) == Search(CurrentView(), old(symbols), addr, above, below)
      ensures Fair(CurrentView()) && hit.Some? ==> Sound(CurrentView(), addr, hit.value, symbols)
      ensures Good(CurrentView()) ==> Answers(CurrentView(), addr, hit, symbols)
    {
      hide Fair, Good, Sound, Answers, Faithful, NamesKnown, Slow, Remapped, CurrentView, IsUpperBound, IsLowerNeighbour, End;
      ghost var view, before := CurrentView(), symbols;
      var above := UpperBound(symbols, addr);
      var below := LowerNeighbour(symbols, addr);
      InBounds(view, symbols, addr, above, below);
      SearchIs(view, before, addr, above, below);
      if above.Some? {
        var value := CachedValue(above.value, symbols[above.value]);
        if value <= addr {
          hit := Some(Hit(above.value, addr - value));
          return;
        }
      }
      var count := if remap.Some? then |remap.value| else l.count;
      assert count == |view| by { ViewSize(); }
      var last: nat := if above.Some? then symbols[above.value].index else count % W32;
      var first: nat := if below.Some? then symbols[below.value].index + 1 else 0;
      ghost var slow := Slow(view, before, addr, first, last);
      hit := None;
      while first < last
        invariant RemapInRange() && view == CurrentView() && Remapped() && last <= |view|
        invariant Slow(view, symbols, addr, first, last) == slow
        decreases last - first
      {
        var current := first + (last - first) / 2;
        var read := ReadSymbol(current);
        SlowStep(view, symbols, addr, first, last);
        if read.None? {
          return;
        }
        var s := read.value;
        if End(s) !in symbols {
          symbols := symbols[End(s) := Info(s.size % W32, current, None)];
        }
        if addr < s.value {
          last := current;
        } else if addr < End(s) {
          hit := Some(Hit(End(s), addr - s.value));
          return;
        } else {
          first := current + 1;
        }
      }
      SlowStep(view, symbols, addr, first, last);
    }

    /** Searches the table as it stands, and if that finds nothing builds the remap table and searches through it, from
        then on always. */
    method Lookup(addr: nat) returns (hit: Option<Hit>)
      requires Valid()
      modifies this
      ensures Valid() && (hit.Some? ==> hit.value.key in symbols) && (hit.None? ==> remap.Some?)
      ensures Fair(CurrentView()) && hit.Some? ==> Sound(CurrentView(), addr, hit.value, symbols)
      ensures Good(CurrentView()) ==> Answers(CurrentView(), addr, hit, symbols)
      ensures old(remap.Some?) ==> remap == old(remap)
    {
      hide Fair, Good, Sound, Answers, NamesKnown, Faithful, IsRemapUpTo, Search, IsUpperBound, IsLowerNeighbour;
      hit := BinarySearch(addr);
      if hit.None? && remap.None? {
        var built := BuildRemapTable(l);
        ghost var visited: nat :| IsRemapUpTo(l.Table(), visited, built);
        RemapIsInRange(l.Table(), visited, built);
        remap, symbols := Some(built), map[];
        NothingCached(CurrentView());
        hit := BinarySearch(addr);
      }
    }

    /** The name of the function that covers an address: for a table in any order, after any lookups, whether the search
        finds it in the table as it stands or through the remap table. */
    method GetName(addr: nat) returns (name: Option<string>, offset: nat)
      requires Valid()
      modifies this
      ensures Valid()
      ensures Loose(l.Table()) ==> Names(l.Table(), addr, name, offset)
    {
      hide Loose, Fair, Good, Sound, Answers, NamesKnown, Faithful, IsRemapUpTo, Names, Through, Apart, Readable;
      name, offset := None, 0;
      var hit := Lookup(addr);
      ghost var loose := Loose(l.Table());
      if loose {
        LooseView();
      }
      if hit.None? {
        if loose {
          NothingNamed(CurrentView(), addr, symbols);
          NamesInTable(addr, None, 0);
        }
        return;
      }
      offset := hit.value.offset;
      var info := symbols[hit.value.key];
      InfoInRange(CurrentView(), symbols, hit.value.key);
      if loose {
        FoundName(CurrentView(), addr, hit.value, symbols);
      }
      name := info.name;
      if name.None? {
        var read := ReadSymbol(info.index);
        if read.Some? && read.value.isFunc {
          name := read.value.name;
        }
        if name.Some? {
          NameCached(CurrentView(), symbols, hit.value.key, name);
          symbols := symbols[hit.value.key := info.(name := name)];
        }
      }
      if loose {
        NamesInTable(addr, name, offset);
      }
    }

    /** What is searched: the table as it stands, where what is found is right, or the remap table, where all is found. */
    lemma LooseView()
      requires RemapInRange() && Remapped() && Loose(l.Table())
      ensures Fair(CurrentView()) && Readable(CurrentView()) && Apart(CurrentView()) && (remap.Some? ==> Good(CurrentView()))
    {
      if remap.Some? {
        var visited: nat :| IsRemapUpTo(l.Table(), visited, remap.value);
        AllRead(l.Table(), visited);
        RemapOfLoose(l.Table(), remap.value);
        hide IsRemapUpTo, Loose, Harmless, Short;
        SortedIsApart(CurrentView());
      }
    }

    lemma NamesInTable(addr: nat, name: Option<string>, offset: nat)
      requires RemapInRange() && Remapped() && Loose(l.Table()) && Names(CurrentView(), addr, name, offset)
      ensures Names(l.Table(), addr, name, offset)
    {
      hide Names;
      if remap.Some? {
        var visited: nat :| IsRemapUpTo(l.Table(), visited, remap.value);
        AllRead(l.Table(), visited);
        NamesThrough(l.Table(), remap.value, addr, name, offset);
      }
    }

    lemma ViewSize()
      requires RemapInRange()
      ensures |CurrentView()| == if remap.Some? then |remap.value| else l.count
    {
    }
  }

  /** All that is known of a search, for the only bounds there are. */
  lemma SearchIs(view: View, cache: Cache, addr: nat, above: Option<nat>, below: Option<nat>)
    requires Faithful(view, cache) && NamesKnown(view, cache)
    requires IsUpperBound(cache, addr, above) && IsLowerNeighbour(cache, addr, below)
    ensures forall a, b :: IsUpperBound(cache, addr, a) && IsLowerNeighbour(cache, addr, b) ==> a == above && b == below
    ensures (above.Some? ==> above.value in cache) && (below.Some? ==> below.value in cache)
    ensures var r := Search(view, cache, addr, above, below);
            && Faithful(view, r.1) && NamesKnown(view, r.1) && (r.0.Some? ==> r.0.value.key in r.1)
            && (Fair(view) && r.0.Some? ==> Sound(view, addr, r.0.value, r.1))
            && (Good(view) ==> Answers(view, addr, r.0, r.1))
  {
    hide Search, NamesKnown, Fair, Good, Faithful, Sound, Answers;
    BoundsAreUnique(cache, addr, above, below);
    SearchKeepsFaithful(view, cache, addr, above, below);
    SearchKeepsNames(view, cache, addr, above, below);
    if Fair(view) {
      SearchIsSound(view, cache, addr, above, below);
    }
    if Good(view) {
      SearchAnswers(view, cache, addr, above, below);
    }
  }

  lemma SearchKeepsNames(view: View, cache: Cache, addr: nat, above: Option<nat>, below: Option<nat>)
    requires Faithful(view, cache) && NamesKnown(view, cache)
    requires (above.Some? ==> above.value in cache) && (below.Some? ==> below.value in cache)
    ensures NamesKnown(view, Search(view, cache, addr, above, below).1)
  {
    hide Slow, NamesKnown;
    var last := if above.Some? then cache[above.value].index else |view| % W32;
    var first := if below.Some? then cache[below.value].index + 1 else 0;
    SlowKeepsNames(view, cache, addr, first, last);
  }

  lemma InBounds(view: View, cache: Cache, addr: nat, above: Option<nat>, below: Option<nat>)
    requires Faithful(view, cache) && IsUpperBound(cache, addr, above) && IsLowerNeighbour(cache, addr, below)
    ensures above.Some? ==> above.value in cache && cache[above.value].index < |view|
    ensures below.Some? ==> below.value in cache && cache[below.value].index < |view|
  {
    if above.Some? {
      InfoInRange(view, cache, above.value);
    }
    if below.Some? {
      InfoInRange(view, cache, below.value);
    }
  }

  /** One step of the search loop. */
  lemma SlowStep(view: View, cache: Cache, addr: nat, first: nat, last: nat)
    requires last <= |view|
    ensures Slow(view, cache, addr, first, last) ==
            if first >= last then (None, cache)
            else
              var current := first + (last - first) / 2;
              if view[current].None? then (None, cache)
              else
                var s := view[current].value;
                var cache' := Emplaced(cache, s, current);
                if addr < s.value then Slow(view, cache', addr, first, current)
                else if addr < End(s) then (Some(Hit(End(s), addr - s.value)), cache')
                else Slow(view, cache', addr, current + 1, last)
  {
  }
}
