/** The list of tracked allocations: building it, sorting it, and merging its runs of equal entries in place. */
module PeakList {
  import opened MapSums
  import opened TrackerState

  /** One line of the list. `frames` stands for the pointer to the stack record, which the index identifies. */
  datatype ListInfo = ListInfo(pointer: Addr, num: nat, size: nat, memType: MemType, frames: nat, depth: nat,
                               info: seq<nat>, time: nat)

  // MaxSize() + 1.
  const SIZE_LIMIT := 0x8000_0000

  /** The low 31 bits of the recorded size. */
  function RealSize(i: PointerInfo): nat {
    i.size % SIZE_LIMIT
  }

  predicate HasStack(i: PointerInfo) {
    i.hashIndex > EMPTY_INDEX
  }

  function ListedBytes(): PointerInfo -> nat {
    (i: PointerInfo) => if HasStack(i) then RealSize(i) else 0
  }

  function StackBytes(): PointerInfo -> nat {
    (i: PointerInfo) => if HasStack(i) then i.size else 0
  }

  function Listed(): PointerInfo -> nat {
    (i: PointerInfo) => if HasStack(i) then 1 else 0
  }

  /** The lookups that the list does not check hit: every tracked pointer with a stack finds its records. */
  ghost predicate LookupsHit(s: State) {
    forall p :: p in s.pointers && HasStack(s.pointers[p]) ==>
                  s.pointers[p].hashIndex in s.frames && s.pointers[p].hashIndex in s.infos
  }

  /** The keys of a map in the order in which iterating over it meets them. */
  ghost predicate IsOrderOf(order: seq<Addr>, keys: set<Addr>) {
    && (forall k :: k in order <==> k in keys)
    && (forall i, j :: 0 <= i < j < |order| ==> order[i] != order[j])
  }

  function Line(s: State, p: Addr): ListInfo
    requires p in s.pointers && s.pointers[p].hashIndex in s.frames && s.pointers[p].hashIndex in s.infos
  {
    var i := s.pointers[p];
    ListInfo(p, 1, RealSize(i), i.memType, i.hashIndex, |s.frames[i.hashIndex].frames|, s.infos[i.hashIndex], i.time)
  }

  type Key = (nat, nat)

  function KeyOf(i: ListInfo): Key {
    (i.size, i.frames)
  }

  function Keys(list: seq<ListInfo>): seq<Key> {
    seq(|list|, i requires 0 <= i < |list| => KeyOf(list[i]))
  }

  function Repeat(k: Key, n: nat): seq<Key> {
    seq(n, _ => k)
  }

  /** Size and stack of every allocation a list stands for, one by one. */
  function Expand(list: seq<ListInfo>): seq<Key> {
    if list == [] then [] else Repeat(KeyOf(list[0]), list[0].num) + Expand(list[1..])
  }

  function TotalBytes(list: seq<ListInfo>): nat {
    if list == [] then 0 else list[0].size * list[0].num + TotalBytes(list[1..])
  }

  function TotalCount(list: seq<ListInfo>): nat {
    if list == [] then 0 else list[0].num + TotalCount(list[1..])
  }

  predicate Single(list: seq<ListInfo>) {
    forall i :: 0 <= i < |list| ==> list[i].num == 1
  }

  /** How many entries at the front agree in size and stack with the first. */
  function RunLength(list: seq<ListInfo>): (n: nat)
    requires list != []
    ensures 1 <= n <= |list|
    ensures forall i :: 0 <= i < n ==> KeyOf(list[i]) == KeyOf(list[0])
    ensures n < |list| ==> KeyOf(list[n]) != KeyOf(list[0])
  {
    if |list| == 1 || KeyOf(list[1]) != KeyOf(list[0]) then 1 else 1 + RunLength(list[1..])
  }

  /** Each run of equal entries becomes its first entry, counting the run. */
  function Merged(list: seq<ListInfo>): seq<ListInfo>
    decreases |list|
  {
    if list == [] then []
    else [list[0].(num := RunLength(list))] + Merged(list[RunLength(list)..])
  }

  /** Adds each entry that agrees with the one at `iter` to its count; `dup` is the first that does not. */
  method CountRun(list: seq<ListInfo>, iter: nat) returns (merged: seq<ListInfo>, dup: nat)
    requires iter < |list| && list[iter].num == 1
    ensures dup == iter + RunLength(list[iter..]) && dup <= |list|
    ensures merged == list[iter := list[iter].(num := dup - iter)]
  {
    merged := list;
    dup := iter + 1;
    var size, frames := list[iter].size, list[iter].frames;
    while dup < |merged| && size == merged[dup].size && frames == merged[dup].frames
      invariant iter < dup <= |list|
      invariant merged == list[iter := list[iter].(num := dup - iter)]
      invariant forall j :: iter <= j < dup ==> KeyOf(list[j]) == KeyOf(list[iter])
    {
      merged := merged[iter := merged[iter].(num := merged[iter].num + 1)];
      dup := dup + 1;
    }
    RunIs(list[iter..], dup - iter);
  }

  /** The in-place merging of GetUniqueList: it erases the rest of each run from the list. */
  method MergeRuns(list: seq<ListInfo>) returns (merged: seq<ListInfo>)
    requires Single(list)
    ensures merged == Merged(list)
  {
    hide Merged, RunLength;
    merged := list;
    var iter := 0;
    assert merged[iter..] == list;
    assert merged[..iter] + Merged(merged[iter..]) == Merged(list);
    while iter < |merged|
      invariant iter <= |merged|
      invariant merged[..iter] + Merged(merged[iter..]) == Merged(list)
      invariant Single(merged[iter..])
      decreases |merged| - iter
    {
      ghost var done, rest := merged[..iter], merged[iter..];
      assert rest[0] == merged[iter];
      var counted, dup := CountRun(merged, iter);
      merged := counted[..iter + 1] + counted[dup..];
      iter := iter + 1;
      MergeStep(done, rest, merged, iter);
    }
    assert merged[iter..] == [] && Merged([]) == [] by {
      MergedOfNothing();
    }
    assert merged[..iter] + [] == merged;
  }

  lemma MergedOfNothing()
    ensures Merged([]) == []
  {
  }

  lemma MergeStep(done: seq<ListInfo>, rest: seq<ListInfo>, merged: seq<ListInfo>, iter: nat)
    requires rest != [] && iter == |done| + 1
    requires merged == done + [rest[0].(num := RunLength(rest))] + rest[RunLength(rest)..]
    ensures merged[..iter] + Merged(merged[iter..]) == done + Merged(rest)
  {
    hide Merged, RunLength;
    MergedUnrolls(rest);
    var n := RunLength(rest);
    var first, tail := [rest[0].(num := n)], Merged(rest[n..]);
    assert merged[..iter] == done + first;
    assert merged[iter..] == rest[n..];
    assert (done + first) + tail == done + (first + tail);
  }

  lemma MergedUnrolls(list: seq<ListInfo>)
    requires list != []
    ensures Merged(list) == [list[0].(num := RunLength(list))] + Merged(list[RunLength(list)..])
  {
  }

  lemma RunIs(list: seq<ListInfo>, n: nat)
    requires 1 <= n <= |list| && (forall j :: 0 <= j < n ==> KeyOf(list[j]) == KeyOf(list[0]))
    requires n < |list| ==> KeyOf(list[n]) != KeyOf(list[0])
    ensures RunLength(list) == n
  {
    var m := RunLength(list);
  }

  lemma KeysOfRun(list: seq<ListInfo>, n: nat)
    requires n <= |list| && forall i :: 0 <= i < n ==> KeyOf(list[i]) == KeyOf(list[0])
    ensures n > 0 ==> Repeat(KeyOf(list[0]), n) + Keys(list[n..]) == Keys(list)
  {
  }

  /** Merging is run-length encoding: expanding the result gives back every allocation, in order. */
  lemma {:induction false} MergedExpands(list: seq<ListInfo>)
    ensures Expand(Merged(list)) == Keys(list)
    decreases |list|
  {
    if list != [] {
      var n := RunLength(list);
      MergedExpands(list[n..]);
      assert Merged(list)[1..] == Merged(list[n..]);
      hide Merged, RunLength;
      KeysOfRun(list, n);
    }
  }

  /** No two neighbours of the result agree. */
  lemma {:induction false} MergedNeighboursDiffer(list: seq<ListInfo>)
    ensures forall i :: 0 < i < |Merged(list)| ==> KeyOf(Merged(list)[i - 1]) != KeyOf(Merged(list)[i])
    decreases |list|
  {
    if list != [] {
      var n := RunLength(list);
      MergedNeighboursDiffer(list[n..]);
      var tail := Merged(list[n..]);
      forall i | 0 < i < |Merged(list)|
        ensures KeyOf(Merged(list)[i - 1]) != KeyOf(Merged(list)[i])
      {
        if i > 1 {
          assert Merged(list)[i] == tail[i - 1] && Merged(list)[i - 1] == tail[i - 2];
        }
      }
    }
  }

  /** The entry is the ith of the list but for its count, and the one before it does not agree with it. */
  ghost predicate FirstOfRun(list: seq<ListInfo>, i: nat, x: ListInfo)
    requires i < |list|
  {
    x == list[i].(num := x.num) && (i == 0 || KeyOf(list[i - 1]) != KeyOf(list[i]))
  }

  lemma FirstBehindRun(list: seq<ListInfo>, n: nat, i: nat, x: ListInfo)
    requires list != [] && n == RunLength(list) && i < |list[n..]| && FirstOfRun(list[n..], i, x)
    ensures FirstOfRun(list, n + i, x)
  {
    var rest := list[n..];
    assert rest[i] == list[n + i];
    assert i > 0 ==> rest[i - 1] == list[n + i - 1];
    hide RunLength;
  }

  /** Each entry of the merged list is the first of its run. */
  lemma {:induction false} MergedKeepsFirst(list: seq<ListInfo>, k: nat) returns (i: nat)
    requires k < |Merged(list)|
    ensures i < |list| && FirstOfRun(list, i, Merged(list)[k])
    decreases |list|
  {
    var n := RunLength(list);
    i := 0;
    if k > 0 {
      i := MergedKeepsFirst(list[n..], k - 1);
      FirstBehindRun(list, n, i, Merged(list[n..])[k - 1]);
      i := n + i;
    }
    hide RunLength;
  }

  /** The entries that agree in size and stack lie side by side. */
  ghost predicate Grouped(list: seq<ListInfo>) {
    forall i, j, k :: 0 <= i < j < k < |list| && KeyOf(list[i]) == KeyOf(list[k]) ==> KeyOf(list[i]) == KeyOf(list[j])
  }

  ghost predicate KeysDiffer(list: seq<ListInfo>) {
    forall i, j :: 0 <= i < j < |list| ==> KeyOf(list[i]) != KeyOf(list[j])
  }

  ghost predicate HasKey(list: seq<ListInfo>, k: Key) {
    exists i :: 0 <= i < |list| && KeyOf(list[i]) == k
  }

  lemma HasKeySplits(head: seq<ListInfo>, tail: seq<ListInfo>, k: Key)
    ensures HasKey(head + tail, k) <==> HasKey(head, k) || HasKey(tail, k)
  {
    var list := head + tail;
    if i :| 0 <= i < |head| && KeyOf(head[i]) == k {
      assert KeyOf(list[i]) == k;
    }
    if i :| 0 <= i < |tail| && KeyOf(tail[i]) == k {
      assert KeyOf(list[|head| + i]) == k;
    }
  }

  lemma SameKeyThroughout(list: seq<ListInfo>, first: ListInfo, k: Key)
    requires list != [] && forall i :: 0 <= i < |list| ==> KeyOf(list[i]) == KeyOf(first)
    ensures HasKey(list, k) <==> k == KeyOf(first)
  {
    assert KeyOf(list[0]) == KeyOf(first);
  }

  lemma {:induction false} MergedHasTheKeys(list: seq<ListInfo>, k: Key)
    ensures HasKey(list, k) <==> HasKey(Merged(list), k)
    decreases |list|
  {
    if list != [] {
      hide RunLength, HasKey;
      var n := RunLength(list);
      MergedHasTheKeys(list[n..], k);
      assert list == list[..n] + list[n..];
      HasKeySplits(list[..n], list[n..], k);
      HasKeySplits([list[0].(num := n)], Merged(list[n..]), k);
      SameKeyThroughout(list[..n], list[0], k);
      SameKeyThroughout([list[0].(num := n)], list[0], k);
    } else {
      assert Merged(list) == list;
    }
  }

  /** Merging runs removes all duplicates exactly when the sorted list keeps equal entries side by side. */
  lemma {:induction false} MergedIsUniqueIffGrouped(list: seq<ListInfo>)
    ensures KeysDiffer(Merged(list)) <==> Grouped(list)
    decreases |list|
  {
    if list != [] {
      var n := RunLength(list);
      MergedIsUniqueIffGrouped(list[n..]);
      MergedHasTheKeys(list[n..], KeyOf(list[0]));
      HeadApart(list, n);
      DifferSplits(list[0].(num := n), Merged(list[n..]));
    }
  }

  lemma DifferSplits(head: ListInfo, tail: seq<ListInfo>)
    ensures KeysDiffer([head] + tail) <==> KeysDiffer(tail) && !HasKey(tail, KeyOf(head))
  {
    var list := [head] + tail;
    if KeysDiffer(list) {
      forall i, j | 0 <= i < j < |tail|
        ensures KeyOf(tail[i]) != KeyOf(tail[j])
      {
        assert tail[i] == list[i + 1] && tail[j] == list[j + 1];
      }
      forall i | 0 <= i < |tail|
        ensures KeyOf(tail[i]) != KeyOf(head)
      {
        assert list[0] == head && tail[i] == list[i + 1];
      }
    }
  }

  lemma GroupedTail(list: seq<ListInfo>, n: nat)
    requires Grouped(list) && n <= |list|
    ensures Grouped(list[n..])
  {
    var rest := list[n..];
    forall i, j, k | 0 <= i < j < k < |rest| && KeyOf(rest[i]) == KeyOf(rest[k])
      ensures KeyOf(rest[i]) == KeyOf(rest[j])
    {
      assert rest[i] == list[n + i] && rest[j] == list[n + j] && rest[k] == list[n + k];
    }
  }

  lemma GroupedHead(list: seq<ListInfo>, n: nat)
    requires list != [] && n == RunLength(list) && Grouped(list)
    ensures !HasKey(list[n..], KeyOf(list[0]))
  {
    var rest := list[n..];
    forall k | 0 <= k < |rest|
      ensures KeyOf(rest[k]) != KeyOf(list[0])
    {
      assert rest[k] == list[n + k];
    }
  }

  lemma HeadApart(list: seq<ListInfo>, n: nat)
    requires list != [] && n == RunLength(list)
    ensures Grouped(list) <==> Grouped(list[n..]) && !HasKey(list[n..], KeyOf(list[0]))
  {
    var rest := list[n..];
    if Grouped(list) {
      GroupedTail(list, n);
      GroupedHead(list, n);
    }
    if Grouped(rest) && !HasKey(rest, KeyOf(list[0])) {
      forall i, j, k | 0 <= i < j < k < |list| && KeyOf(list[i]) == KeyOf(list[k])
        ensures KeyOf(list[i]) == KeyOf(list[j])
      {
        GroupedTriple(list, n, i, j, k);
      }
    }
  }

  lemma GroupedTriple(list: seq<ListInfo>, n: nat, i: nat, j: nat, k: nat)
    requires list != [] && n == RunLength(list) && i < j < k < |list| && KeyOf(list[i]) == KeyOf(list[k])
    requires Grouped(list[n..]) && !HasKey(list[n..], KeyOf(list[0]))
    ensures KeyOf(list[i]) == KeyOf(list[j])
  {
    hide RunLength;
    var rest := list[n..];
    if k >= n {
      assert list[k] == rest[k - n];
      assert KeyOf(rest[k - n]) != KeyOf(list[0]);
      if i >= n {
        assert list[i] == rest[i - n] && list[j] == rest[j - n];
      }
    }
  }

  function KeyBytes(keys: seq<Key>): nat {
    if keys == [] then 0 else keys[0].0 + KeyBytes(keys[1..])
  }

  lemma {:induction false} KeyBytesAdd(a: seq<Key>, b: seq<Key>)
    ensures KeyBytes(a + b) == KeyBytes(a) + KeyBytes(b)
  {
    if a == [] {
      assert a + b == b;
    } else {
      KeyBytesAdd(a[1..], b);
      assert (a + b)[1..] == a[1..] + b;
    }
  }

  lemma {:induction false} KeyBytesRepeat(k: Key, n: nat)
    ensures KeyBytes(Repeat(k, n)) == k.0 * n
  {
    if n > 0 {
      KeyBytesRepeat(k, n - 1);
      assert Repeat(k, n)[1..] == Repeat(k, n - 1);
    }
  }

  lemma {:induction false} ExpandTotals(list: seq<ListInfo>)
    ensures TotalCount(list) == |Expand(list)| && TotalBytes(list) == KeyBytes(Expand(list))
  {
    if list != [] {
      ExpandTotals(list[1..]);
      KeyBytesRepeat(KeyOf(list[0]), list[0].num);
      KeyBytesAdd(Repeat(KeyOf(list[0]), list[0].num), Expand(list[1..]));
    }
  }

  lemma {:induction false} ExpandSingle(list: seq<ListInfo>)
    requires Single(list)
    ensures Expand(list) == Keys(list)
  {
    if list != [] {
      ExpandSingle(list[1..]);
      assert Keys(list) == [KeyOf(list[0])] + Keys(list[1..]);
    }
  }

  /** Merging neither loses nor invents allocations or bytes. */
  lemma MergedConserves(list: seq<ListInfo>)
    requires Single(list)
    ensures TotalCount(Merged(list)) == |list| == TotalCount(list) && TotalBytes(Merged(list)) == TotalBytes(list)
  {
    MergedExpands(list);
    ExpandSingle(list);
    ExpandTotals(list);
    ExpandTotals(Merged(list));
  }

  /** The list has one line for each tracked pointer with a stack, and no others. */
  ghost predicate ListOf(s: State, list: seq<ListInfo>)
    requires LookupsHit(s)
  {
    && (forall x :: x in list ==> x.pointer in s.pointers && HasStack(s.pointers[x.pointer]) && x == Line(s, x.pointer))
    && (forall p :: p in s.pointers && HasStack(s.pointers[p]) ==> Line(s, p) in list)
    && (forall x :: multiset(list)[x] <= 1)
  }

  lemma ListOfTail(s: State, list: seq<ListInfo>)
    requires LookupsHit(s) && ListOf(s, list) && list != []
    ensures var rest := s.(pointers := s.pointers - {list[0].pointer}); LookupsHit(rest) && ListOf(rest, list[1..])
  {
    var head, tail := list[0], list[1..];
    assert list == [head] + tail;
    assert multiset(list) == multiset{head} + multiset(tail);
    assert multiset(list)[head] == 1 + multiset(tail)[head];
    assert head !in multiset(tail);
    assert forall x :: multiset(tail)[x] <= multiset(list)[x];
    var rest := s.(pointers := s.pointers - {head.pointer});
    forall x | x in tail
      ensures x.pointer in rest.pointers && HasStack(rest.pointers[x.pointer]) && x == Line(rest, x.pointer)
    {
      assert x in list && x != head;
    }
    forall p | p in rest.pointers && HasStack(rest.pointers[p])
      ensures Line(rest, p) in tail
    {
      assert Line(s, p) in list && Line(rest, p) == Line(s, p) != head;
    }
  }

  /** In whatever order it stands, the list counts every stack-bearing pointer once, with its real size. */
  lemma {:induction false} ListTotals(s: State, list: seq<ListInfo>)
    requires LookupsHit(s) && ListOf(s, list)
    ensures TotalCount(list) == Sum(s.pointers, Listed()) && TotalBytes(list) == Sum(s.pointers, ListedBytes())
    decreases |list|
  {
    if list == [] {
      SumZero(s.pointers, Listed());
      SumZero(s.pointers, ListedBytes());
    } else {
      var p := list[0].pointer;
      assert list[0] in list;
      ListOfTail(s, list);
      ListTotals(s.(pointers := s.pointers - {p}), list[1..]);
      SumWithout(s.pointers, Listed(), p);
      SumWithout(s.pointers, ListedBytes(), p);
    }
  }

  /** The listed bytes are the tracked bytes exactly when every tracked size with a stack is at most MaxSize. */
  lemma ListedBytesAreTracked(s: State)
    ensures Sum(s.pointers, ListedBytes()) == Sum(s.pointers, StackBytes()) <==>
              forall p :: p in s.pointers && HasStack(s.pointers[p]) ==> s.pointers[p].size < SIZE_LIMIT
  {
    hide Sum;
    SumsAgree(s.pointers, ListedBytes(), StackBytes());
    forall p | p in s.pointers
      ensures ListedBytes()(s.pointers[p]) == StackBytes()(s.pointers[p]) <==>
                !HasStack(s.pointers[p]) || s.pointers[p].size < SIZE_LIMIT
    {
    }
  }

  /** An allocation of 2^31 bytes is listed with none. */
  lemma LargeSizeIsLost(p: Addr, index: nat, time: nat)
    requires index > EMPTY_INDEX
    ensures var pointers := map[p := PointerInfo(0x8000_0000, index, HOST, time)];
            Sum(pointers, ListedBytes()) == 0 && Sum(pointers, StackBytes()) == 0x8000_0000
  {
    var pointers := map[p := PointerInfo(0x8000_0000, index, HOST, time)];
    SumWithout(pointers, ListedBytes(), p);
    SumWithout(pointers, StackBytes(), p);
    assert pointers - {p} == map[];
  }

  /** The order of GetUniqueList: larger sizes first, then deeper stacks, then lower addresses. */
  predicate SizeOrder(a: ListInfo, b: ListInfo) {
    if a.size != b.size then a.size > b.size
    else if a.depth != b.depth then a.depth > b.depth
    else a.pointer < b.pointer
  }

  ghost predicate Asymmetric(less: (ListInfo, ListInfo) -> bool) {
    forall a, b :: less(a, b) ==> !less(b, a)
  }

  ghost predicate InOrder(list: seq<ListInfo>, less: (ListInfo, ListInfo) -> bool) {
    forall i :: 0 < i < |list| ==> !less(list[i], list[i - 1])
  }

  method SortIn(sorted: seq<ListInfo>, x: ListInfo, less: (ListInfo, ListInfo) -> bool) returns (r: seq<ListInfo>)
    requires Asymmetric(less) && InOrder(sorted, less)
    ensures multiset(r) == multiset(sorted) + multiset{x} && InOrder(r, less)
  {
    var i := 0;
    while i < |sorted| && !less(x, sorted[i])
      invariant i <= |sorted|
      invariant i > 0 ==> !less(x, sorted[i - 1])
    {
      i := i + 1;
    }
    r := sorted[..i] + [x] + sorted[i..];
    assert sorted == sorted[..i] + sorted[i..];
    InsertedInOrder(sorted, x, i, r, less);
  }

  lemma InsertedInOrder(sorted: seq<ListInfo>, x: ListInfo, i: nat, r: seq<ListInfo>, less: (ListInfo, ListInfo) -> bool)
    requires InOrder(sorted, less) && i <= |sorted| && r == sorted[..i] + [x] + sorted[i..]
    requires i > 0 ==> !less(x, sorted[i - 1])
    requires i < |sorted| ==> !less(sorted[i], x)
    ensures InOrder(r, less)
  {
    forall j | 0 < j < |r|
      ensures !less(r[j], r[j - 1])
    {
      if j < i {
        assert r[j] == sorted[j] && r[j - 1] == sorted[j - 1];
      } else if j > i + 1 {
        assert r[j] == sorted[j - 1] && r[j - 1] == sorted[j - 2];
      }
    }
  }

  method Sort(list: seq<ListInfo>, less: (ListInfo, ListInfo) -> bool) returns (sorted: seq<ListInfo>)
    requires Asymmetric(less)
    ensures multiset(sorted) == multiset(list) && InOrder(sorted, less)
  {
    sorted := [];
    for n := 0 to |list|
      invariant multiset(sorted) == multiset(list[..n]) && InOrder(sorted, less)
    {
      assert list[..n + 1] == list[..n] + [list[n]];
      sorted := SortIn(sorted, list[n], less);
    }
    assert list[..|list|] == list;
  }

  lemma SortingKeepsLines(s: State, list: seq<ListInfo>, sorted: seq<ListInfo>)
    requires LookupsHit(s) && ListOf(s, list) && Single(list) && multiset(list) == multiset(sorted)
    ensures ListOf(s, sorted) && Single(sorted)
  {
    forall x
      ensures x in sorted <==> x in list
    {
      assert x in sorted <==> x in multiset(sorted);
      assert x in list <==> x in multiset(list);
    }
    forall i | 0 <= i < |sorted|
      ensures sorted[i].num == 1
    {
      assert sorted[i] in list;
    }
  }

  /** Lists the tracked pointers in the order in which iterating over the map meets them, then sorts them. */
  method GetList(s: State, order: seq<Addr>, onlyWithBacktrace: bool, less: (ListInfo, ListInfo) -> bool)
      returns (list: seq<ListInfo>)
    requires LookupsHit(s) && IsOrderOf(order, s.pointers.Keys) && Asymmetric(less)
    // Without a stack the unchecked lookup would miss.
    requires onlyWithBacktrace || forall p :: p in s.pointers ==> HasStack(s.pointers[p])
    ensures ListOf(s, list) && Single(list) && InOrder(list, less)
  {
    list := [];
    for n := 0 to |order|
      invariant forall x :: x in list ==>
        x.pointer in order[..n] && x.pointer in s.pointers && HasStack(s.pointers[x.pointer]) && x == Line(s, x.pointer)
      invariant forall p :: p in order[..n] && HasStack(s.pointers[p]) ==> Line(s, p) in list
      invariant forall x :: multiset(list)[x] <= 1
      invariant Single(list)
    {
      var p := order[n];
      assert order[..n + 1] == order[..n] + [p];
      if s.pointers[p].hashIndex <= EMPTY_INDEX && onlyWithBacktrace {
        continue;
      }
      assert Line(s, p) !in multiset(list) by {
        assert Line(s, p) !in list;
      }
      list := list + [Line(s, p)];
    }
    assert order[..|order|] == order;
    var sorted := Sort(list, less);
    SortingKeepsLines(s, list, sorted);
    list := sorted;
  }

  // When merging removes all duplicates, in terms of what is tracked.

  /** Three tracked pointers in order of address, of equal size and equally deep stacks, of which the first and last have
      the same stack and the one between has another. */
  ghost predicate Splits(s: State, p: Addr, q: Addr, r: Addr)
    requires LookupsHit(s)
  {
    && p < q < r && Bears(s, p) && Bears(s, q) && Bears(s, r)
    && var a, b, c := Line(s, p), Line(s, q), Line(s, r);
      a.size == b.size == c.size && a.depth == b.depth && a.frames == c.frames != b.frames
  }

  ghost predicate Bears(s: State, p: Addr)
    requires LookupsHit(s)
    ensures Bears(s, p) ==> p in s.pointers && s.pointers[p].hashIndex in s.frames && s.pointers[p].hashIndex in s.infos
  {
    p in s.pointers && HasStack(s.pointers[p])
  }

  lemma LineAt(s: State, list: seq<ListInfo>, i: nat)
    requires LookupsHit(s) && ListOf(s, list) && i < |list|
    ensures Bears(s, list[i].pointer) && list[i] == Line(s, list[i].pointer)
  {
    assert list[i] in list;
  }

  lemma PointersDiffer(s: State, list: seq<ListInfo>, i: nat, j: nat)
    requires LookupsHit(s) && ListOf(s, list) && i < j < |list|
    ensures list[i].pointer != list[j].pointer
  {
    LineAt(s, list, i);
    LineAt(s, list, j);
    assert multiset(list)[list[i]] <= 1;
    assert list == list[..j] + list[j..];
    assert list[i] in list[..j] && list[j] in list[j..];
    assert multiset(list) == multiset(list[..j]) + multiset(list[j..]);
  }

  /** The sorted list is in order throughout, not just from one line to the next. */
  lemma {:induction false} InOrderThroughout(s: State, list: seq<ListInfo>, i: nat, j: nat)
    requires LookupsHit(s) && ListOf(s, list) && InOrder(list, SizeOrder) && i < j < |list|
    ensures SizeOrder(list[i], list[j])
    decreases j
  {
    hide ListOf, LookupsHit;
    PointersDiffer(s, list, j - 1, j);
    assert !SizeOrder(list[j], list[j - 1]);
    if i < j - 1 {
      InOrderThroughout(s, list, i, j - 1);
    }
  }

  /** The sorted list keeps equal entries side by side if and only if no pointer splits two others. */
  lemma GroupedIffNothingSplits(s: State, list: seq<ListInfo>)
    requires LookupsHit(s) && ListOf(s, list) && InOrder(list, SizeOrder)
    ensures Grouped(list) <==> forall p, q, r :: !Splits(s, p, q, r)
  {
    hide InOrder, SizeOrder;
    if Grouped(list) {
      forall p, q, r
        ensures !Splits(s, p, q, r)
      {
        if Bears(s, p) && Bears(s, q) && Bears(s, r) {
          GroupedKeeps(s, list, p, q, r);
        }
      }
    }
    if forall p, q, r :: !Splits(s, p, q, r) {
      forall i, j, k | 0 <= i < j < k < |list| && KeyOf(list[i]) == KeyOf(list[k])
        ensures KeyOf(list[i]) == KeyOf(list[j])
      {
        assert !Splits(s, list[i].pointer, list[j].pointer, list[k].pointer);
        BetweenEqual(s, list, i, j, k);
      }
    }
  }

  lemma GroupedKeeps(s: State, list: seq<ListInfo>, p: Addr, q: Addr, r: Addr)
    requires LookupsHit(s) && ListOf(s, list) && InOrder(list, SizeOrder) && Grouped(list)
    requires Bears(s, p) && Bears(s, q) && Bears(s, r)
    ensures !Splits(s, p, q, r)
  {
    var i :| 0 <= i < |list| && list[i] == Line(s, p);
    var j :| 0 <= j < |list| && list[j] == Line(s, q);
    var k :| 0 <= k < |list| && list[k] == Line(s, r);
    PlacedInOrder(s, list, i, j);
    PlacedInOrder(s, list, j, k);
  }

  lemma PlacedInOrder(s: State, list: seq<ListInfo>, i: nat, j: nat)
    requires LookupsHit(s) && ListOf(s, list) && InOrder(list, SizeOrder) && i < |list| && j < |list|
    ensures SizeOrder(list[i], list[j]) ==> i < j
  {
    if j < i {
      InOrderThroughout(s, list, j, i);
    }
  }

  lemma BetweenEqual(s: State, list: seq<ListInfo>, i: nat, j: nat, k: nat)
    requires LookupsHit(s) && ListOf(s, list) && InOrder(list, SizeOrder) && i < j < k < |list| && KeyOf(list[i]) == KeyOf(list[k])
    requires !Splits(s, list[i].pointer, list[j].pointer, list[k].pointer)
    ensures KeyOf(list[i]) == KeyOf(list[j])
  {
    LineAt(s, list, i);
    LineAt(s, list, j);
    LineAt(s, list, k);
    InOrderThroughout(s, list, i, j);
    InOrderThroughout(s, list, j, k);
  }

  /** Sorted so, larger sizes come first, among equal ones deeper stacks, and among equally deep ones lower addresses. */
  lemma LargestFirst(s: State, list: seq<ListInfo>, i: nat, j: nat)
    requires LookupsHit(s) && ListOf(s, list) && InOrder(list, SizeOrder) && i < j < |list|
    ensures list[i].size >= list[j].size
    ensures list[i].size == list[j].size ==> list[i].depth >= list[j].depth
    ensures list[i].size == list[j].size && list[i].depth == list[j].depth ==> list[i].pointer < list[j].pointer
  {
    InOrderThroughout(s, list, i, j);
    hide ListOf, LookupsHit, InOrder;
  }

  /** The list at a peak of memory use: its totals are those of the stack-bearing pointers at that moment. */
  method GetUniqueList(s: State, order: seq<Addr>) returns (merged: seq<ListInfo>, ghost sorted: seq<ListInfo>)
    requires LookupsHit(s) && IsOrderOf(order, s.pointers.Keys)
    ensures ListOf(s, sorted) && InOrder(sorted, SizeOrder) && merged == Merged(sorted)
    ensures TotalCount(merged) == Sum(s.pointers, Listed()) && TotalBytes(merged) == Sum(s.pointers, ListedBytes())
    ensures KeysDiffer(merged) <==> forall p, q, r :: !Splits(s, p, q, r)
  {
    hide Sum, ListOf, LookupsHit, Splits;
    var list := GetList(s, order, true, SizeOrder);
    merged := MergeRuns(list);
    sorted := list;
    ListTotals(s, list);
    MergedConserves(list);
    MergedIsUniqueIffGrouped(list);
    GroupedIffNothingSplits(s, list);
  }

  /** Three equal sizes, stacks of equal depth, sorted by address: the first and last stay apart. */
  lemma DuplicatesCanRemain(info: seq<nat>, time: nat)
    ensures var a, b := ListInfo(1, 1, 8, HOST, 2, 1, info, time), ListInfo(2, 1, 8, HOST, 3, 1, info, time);
            var c := a.(pointer := 3);
            InOrder([a, b, c], SizeOrder) && Merged([a, b, c]) == [a, b, c] && KeyOf(a) == KeyOf(c)
  {
    var a, b := ListInfo(1, 1, 8, HOST, 2, 1, info, time), ListInfo(2, 1, 8, HOST, 3, 1, info, time);
    var c := a.(pointer := 3);
    MergedUnrolls([a, b, c]);
    MergedUnrolls([b, c]);
    MergedUnrolls([c]);
    assert [a, b, c][1..] == [b, c] && [b, c][1..] == [c] && [c][1..] == [];
    var list := [a, b, c];
    assert !SizeOrder(list[1], list[0]) && !SizeOrder(list[2], list[1]);
  }
}
