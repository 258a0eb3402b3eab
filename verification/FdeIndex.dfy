/** The search table of a DWARF section: which FDE describes a pc. */
module FdeIndex {
  import opened OrderedMap

  /** An FDE covers the addresses from pcStart up to but not including pcEnd. */
  datatype Fde = Fde(pcStart: nat, pcEnd: nat)

  /** What the section holds, entry after entry. Reading stops at an entry that cannot be read, and after one that
      claims to be shorter than what was read of it. */
  datatype Item = CieItem(overrun: bool) | FdeItem(fde: Fde, overrun: bool) | Unreadable

  // Under the end address of a piece: where it starts, and the offset of its FDE.
  type FdeMap = map<nat, (nat, nat)>

  predicate Covers(f: Fde, pc: nat) {
    f.pcStart <= pc < f.pcEnd
  }

  /** The pieces are not empty and do not overlap. */
  ghost predicate Disjoint(m: FdeMap) {
    && (forall e :: e in m ==> m[e].0 < e)
    && (forall d, e :: d in m && e in m && d < e ==> d <= m[e].0)
  }

  ghost predicate InPiece(m: FdeMap, e: nat, pc: nat) {
    e in m && m[e].0 <= pc < e
  }

  /** The piece that holds `pc` belongs to the FDE at `offset`. */
  ghost predicate Owns(m: FdeMap, pc: nat, offset: nat) {
    exists e :: InPiece(m, e, pc) && m[e].1 == offset
  }

  ghost predicate Free(m: FdeMap, pc: nat) {
    forall e :: e in m ==> !InPiece(m, e, pc)
  }

  /** `m'` has the pieces of `m`, and gives what was free of the FDE below `limit` to `offset`. */
  ghost predicate Filled(m: FdeMap, m': FdeMap, fde: Fde, offset: nat, limit: nat) {
    forall pc: nat, o: nat :: Owns(m', pc, o) <==>
      Owns(m, pc, o) || (o == offset && Covers(fde, pc) && pc < limit && Free(m, pc))
  }

  /** A piece put where nothing is. */
  lemma AddPiece(m: FdeMap, start: nat, end: nat, offset: nat)
    requires Disjoint(m) && start < end && forall e :: e in m ==> e <= start || end <= m[e].0
    ensures var m' := m[end := (start, offset)];
            Disjoint(m') && forall pc: nat, o: nat :: Owns(m', pc, o) <==> Owns(m, pc, o) || (o == offset && start <= pc < end)
    ensures end !in m && forall pc: nat :: start <= pc < end ==> Free(m, pc)
  {
    var m' := m[end := (start, offset)];
    forall pc: nat, o: nat
      ensures Owns(m', pc, o) <==> Owns(m, pc, o) || (o == offset && start <= pc < end)
    {
      if Owns(m, pc, o) {
        var e :| InPiece(m, e, pc) && m[e].1 == o;
        assert InPiece(m', e, pc);
      }
      if o == offset && start <= pc < end {
        assert InPiece(m', end, pc);
      }
    }
  }

  /** Between `start` and the piece that follows it nothing is; that piece itself is not free. */
  lemma StepOver(m: FdeMap, m': FdeMap, fde: Fde, offset: nat, start: nat, next: nat, m'': FdeMap)
    requires Disjoint(m) && Disjoint(m') && Filled(m, m', fde, offset, start)
    requires fde.pcStart <= start && next in m && next in m' && m'[next] == m[next] && start < next
    requires m[next].0 < fde.pcEnd
    requires forall pc: nat :: start <= pc < m[next].0 ==> Free(m, pc)
    requires forall pc: nat, o: nat :: Owns(m'', pc, o) <==> Owns(m', pc, o) || (o == offset && start <= pc < m[next].0)
    ensures Filled(m, m'', fde, offset, next)
  {
    forall pc: nat, o: nat
      ensures Owns(m'', pc, o) <==> Owns(m, pc, o) || (o == offset && Covers(fde, pc) && pc < next && Free(m, pc))
    {
      if m[next].0 <= pc < next {
        assert InPiece(m, next, pc);
      }
    }
  }

  ghost function Above(m: FdeMap, k: nat): set<nat> {
    set e | e in m && k < e
  }

  /** Adds what is still free of an FDE: in the gaps between the pieces that are there, and behind them. */
  method InsertFde(m: FdeMap, offset: nat, fde: Fde) returns (m': FdeMap)
    requires Disjoint(m)
    ensures Disjoint(m') && Filled(m, m', fde, offset, fde.pcEnd)
  {
    hide Owns, Free, Filled;
    NothingFilled(m, fde, offset);
    m' := m;
    var start, end := fde.pcStart, fde.pcEnd;
    var it := UpperBound(m', start);
    while it.Some? && start < end && m'[it.value].0 < end
      invariant fde.pcStart <= start && Disjoint(m')
      invariant IsUpperBound(m', start, it)
      invariant Filled(m, m', fde, offset, start)
      invariant forall e :: start < e ==> (e in m' <==> e in m) && (e in m ==> m'[e] == m[e])
      decreases Above(m, start)
    {
      ghost var before := m';
      var next := it.value;
      var gap := m'[next].0;
      if start < gap {
        AddPiece(m', start, gap, offset);
        m' := m'[gap := (start, offset)];
      }
      GapIsFree(m, before, start, next);
      StepOver(m, before, fde, offset, start, next, m');
      assert next in Above(m, start) && next !in Above(m, next);
      start := next;
      it := UpperBound(m', start);
    }
    if start < end {
      FreeInBoth(m, m', fde, offset, start);
      AddPiece(m', start, end, offset);
      RestFilled(m, m', fde, offset, start, m'[end := (start, offset)]);
      m' := m'[end := (start, offset)];
    } else {
      FilledBeyond(m, m', fde, offset, start);
    }
  }

  lemma NothingFilled(m: FdeMap, fde: Fde, offset: nat)
    ensures Filled(m, m, fde, offset, fde.pcStart)
  {
  }

  lemma RestFilled(m: FdeMap, m': FdeMap, fde: Fde, offset: nat, start: nat, m'': FdeMap)
    requires Filled(m, m', fde, offset, start) && fde.pcStart <= start
    requires forall pc: nat :: start <= pc < fde.pcEnd ==> Free(m, pc)
    requires forall pc: nat, o: nat :: Owns(m'', pc, o) <==> Owns(m', pc, o) || (o == offset && start <= pc < fde.pcEnd)
    ensures Filled(m, m'', fde, offset, fde.pcEnd)
  {
  }

  lemma FilledBeyond(m: FdeMap, m': FdeMap, fde: Fde, offset: nat, limit: nat)
    requires Filled(m, m', fde, offset, limit) && fde.pcEnd <= limit
    ensures Filled(m, m', fde, offset, fde.pcEnd)
  {
  }

  lemma FreeInBoth(m: FdeMap, m': FdeMap, fde: Fde, offset: nat, limit: nat)
    requires Filled(m, m', fde, offset, limit)
    ensures forall pc: nat :: Free(m', pc) ==> Free(m, pc)
  {
    forall pc: nat, e | Free(m', pc) && e in m
      ensures !InPiece(m, e, pc)
    {
      assert InPiece(m, e, pc) ==> Owns(m, pc, m[e].1);
    }
  }

  lemma GapIsFree(m: FdeMap, m': FdeMap, start: nat, next: nat)
    requires Disjoint(m) && next in m && forall e :: e in m && start < e ==> next <= e
    ensures forall pc: nat :: start <= pc < m[next].0 ==> Free(m, pc)
  {
  }

  /** The first FDE, in section order from the ith entry on, that covers `pc`. */
  function FirstFde(section: seq<Item>, i: nat, pc: nat): (r: Option<nat>)
    ensures r.Some? ==> i <= r.value < |section| && section[r.value].FdeItem? && Covers(section[r.value].fde, pc)
    decreases |section| - i
  {
    if i >= |section| || section[i].Unreadable? then None
    else if section[i].FdeItem? && Covers(section[i].fde, pc) then Some(i)
    else if section[i].overrun then None
    else FirstFde(section, i + 1, pc)
  }

  /** Reading the section gets as far as its jth entry. */
  ghost predicate Reached(section: seq<Item>, i: nat, j: nat) {
    i <= j < |section| && (forall k :: i <= k <= j ==> !section[k].Unreadable?) && forall k :: i <= k < j ==> !section[k].overrun
  }

  ghost predicate Describes(section: seq<Item>, i: nat, j: nat, pc: nat) {
    Reached(section, i, j) && section[j].FdeItem? && Covers(section[j].fde, pc)
  }

  /** The first FDE covering a pc is the least of those that are reached and cover it; there is none only if none does. */
  lemma {:induction false} FirstFdeIsLeast(section: seq<Item>, i: nat, pc: nat)
    ensures match FirstFde(section, i, pc)
            case Some(o) => Describes(section, i, o, pc) && forall j :: Describes(section, i, j, pc) ==> o <= j
            case None => forall j :: !Describes(section, i, j, pc)
    decreases |section| - i
  {
    if i < |section| && !section[i].Unreadable? && !(section[i].FdeItem? && Covers(section[i].fde, pc)) && !section[i].overrun {
      FirstFdeIsLeast(section, i + 1, pc);
      forall j | Describes(section, i, j, pc)
        ensures Describes(section, i + 1, j, pc)
      {
      }
    }
  }

  /** The map of a section gives each pc to the first FDE that covers it. */
  method BuildFdeMap(section: seq<Item>) returns (m: FdeMap)
    ensures Disjoint(m) && forall pc: nat, o: nat :: Owns(m, pc, o) <==> FirstFde(section, 0, pc) == Some(o)
  {
    m := map[];
    var i := 0;
    while i < |section|
      invariant i <= |section| && Disjoint(m)
      invariant forall pc: nat, o: nat :: FirstFde(section, 0, pc) == Some(o) <==>
        Owns(m, pc, o) || (Free(m, pc) && FirstFde(section, i, pc) == Some(o))
      decreases |section| - i
    {
      if section[i].Unreadable? {
        return;
      }
      if section[i].FdeItem? {
        ghost var before := m;
        m := InsertFde(m, i, section[i].fde);
        FreeAfter(before, m, section[i].fde, i);
      }
      if section[i].overrun {
        return;
      }
      i := i + 1;
    }
  }

  lemma FreeAfter(m: FdeMap, m': FdeMap, fde: Fde, offset: nat)
    requires Filled(m, m', fde, offset, fde.pcEnd)
    ensures forall pc: nat :: Free(m', pc) <==> Free(m, pc) && !Covers(fde, pc)
  {
    FreeInBoth(m, m', fde, offset, fde.pcEnd);
    forall pc: nat
      ensures Free(m', pc) <==> Free(m, pc) && !Covers(fde, pc)
    {
      if !Free(m', pc) {
        var e :| e in m' && InPiece(m', e, pc);
        assert Owns(m', pc, m'[e].1);
      }
      if Free(m, pc) && Covers(fde, pc) {
        assert Owns(m', pc, offset);
      }
    }
  }

  /** The pieces of a map in address order; their starts are dropped. */
  ghost predicate IsIndexOf(index: seq<(nat, nat)>, m: FdeMap) {
    && (forall i, j :: 0 <= i < j < |index| ==> index[i].0 < index[j].0)
    && (forall i :: 0 <= i < |index| ==> index[i].0 in m && m[index[i].0].1 == index[i].1)
    && (forall e :: e in m ==> Listed(index, e))
  }

  ghost predicate Listed(index: seq<(nat, nat)>, e: nat) {
    exists i :: 0 <= i < |index| && index[i].0 == e
  }

  lemma ListedGrows(index: seq<(nat, nat)>, x: (nat, nat))
    ensures Listed(index + [x], x.0) && forall e :: Listed(index, e) ==> Listed(index + [x], e)
  {
    var index' := index + [x];
    assert index'[|index|] == x;
    forall e | Listed(index, e)
      ensures Listed(index', e)
    {
      var i :| 0 <= i < |index| && index[i].0 == e;
      assert index'[i].0 == e;
    }
  }

  method CopyOut(m: FdeMap) returns (index: seq<(nat, nat)>)
    requires Disjoint(m)
    ensures IsIndexOf(index, m)
  {
    hide Listed;
    index := [];
    var last := 0;
    var it := UpperBound(m, last);
    while it.Some?
      invariant IsUpperBound(m, last, it) && Copied(index, m, last)
      decreases Above(m, last)
    {
      CopyNext(index, m, last, it.value);
      index := index + [(it.value, m[it.value].1)];
      last := it.value;
      it := UpperBound(m, last);
    }
  }

  /** The pieces up to `last` have been copied. */
  ghost predicate Copied(index: seq<(nat, nat)>, m: FdeMap, last: nat) {
    && (forall i, j :: 0 <= i < j < |index| ==> index[i].0 < index[j].0)
    && (forall i :: 0 <= i < |index| ==> index[i].0 in m && m[index[i].0].1 == index[i].1 && index[i].0 <= last)
    && (forall e :: e in m && e <= last ==> Listed(index, e))
  }

  lemma CopyNext(index: seq<(nat, nat)>, m: FdeMap, last: nat, next: nat)
    requires Copied(index, m, last) && IsUpperBound(m, last, Some(next))
    ensures Copied(index + [(next, m[next].1)], m, next) && Above(m, next) < Above(m, last)
  {
    hide Listed;
    ListedGrows(index, (next, m[next].1));
    assert next in Above(m, last) && next !in Above(m, next);
  }

  /** What the first entry of the index that ends above `pc` says is right even though starts are missing: its FDE
      cannot reach back over a gap without covering the gap. */
  lemma EntryDecides(section: seq<Item>, m: FdeMap, e: nat, pc: nat)
    requires Disjoint(m) && forall p: nat, o: nat :: Owns(m, p, o) <==> FirstFde(section, 0, p) == Some(o)
    requires e in m && pc < e && forall d :: d in m && pc < d ==> e <= d
    ensures var o := m[e].1;
            o < |section| && section[o].FdeItem?
            && FirstFde(section, 0, pc) == if section[o].fde.pcStart <= pc then Some(o) else None
  {
    var o := m[e].1;
    assert InPiece(m, e, e - 1) && Owns(m, e - 1, o);
    if m[e].0 <= pc {
      assert InPiece(m, e, pc) && Owns(m, pc, o);
    } else {
      assert forall d :: d in m ==> !InPiece(m, d, pc);
      assert forall o' :: !Owns(m, pc, o');
      assert FirstFde(section, 0, pc) == None;
      FirstFdeMisses(section, 0, e - 1, pc);
    }
  }

  /** An FDE that is first for one pc does not cover another pc for which there is none. */
  lemma {:induction false} FirstFdeMisses(section: seq<Item>, i: nat, pc: nat, pc': nat)
    requires FirstFde(section, i, pc).Some? && FirstFde(section, i, pc').None?
    ensures !Covers(section[FirstFde(section, i, pc).value].fde, pc')
    decreases |section| - i
  {
    if !(section[i].FdeItem? && Covers(section[i].fde, pc)) {
      FirstFdeMisses(section, i + 1, pc, pc');
    }
  }

  ghost predicate Indexes(section: seq<Item>, index: seq<(nat, nat)>, m: FdeMap) {
    && Disjoint(m) && IsIndexOf(index, m)
    && forall pc: nat, o: nat :: Owns(m, pc, o) <==> FirstFde(section, 0, pc) == Some(o)
  }

  lemma NothingBetween(section: seq<Item>, index: seq<(nat, nat)>, m: FdeMap, pc: nat, i: nat)
    requires Indexes(section, index, m) && i <= |index|
    requires forall j :: 0 <= j < i ==> index[j].0 <= pc
    requires i < |index| ==> pc < index[i].0
    ensures i < |index| ==> forall d :: d in m && pc < d ==> index[i].0 <= d
    ensures i == |index| ==> FirstFde(section, 0, pc) == None
  {
    forall d | d in m && pc < d
      ensures i < |index| && index[i].0 <= d
    {
      assert Listed(index, d);
      var j :| 0 <= j < |index| && index[j].0 == d;
    }
    if i == |index| {
      forall o: nat
        ensures !Owns(m, pc, o)
      {
      }
    }
  }

  /** The binary search over end addresses finds the first FDE in section order that covers `pc`. */
  lemma SearchDecides(section: seq<Item>, index: seq<(nat, nat)>, m: FdeMap, pc: nat, i: nat)
    requires Indexes(section, index, m) && i <= |index|
    requires forall j :: 0 <= j < i ==> index[j].0 <= pc
    requires i < |index| ==> pc < index[i].0
    ensures i == |index| ==> FirstFde(section, 0, pc) == None
    ensures i < |index| ==>
              var o := index[i].1;
              o < |section| && section[o].FdeItem?
              && FirstFde(section, 0, pc) == if section[o].fde.pcStart <= pc then Some(o) else None
  {
    NothingBetween(section, index, m, pc, i);
    if i < |index| {
      EntryDecides(section, m, index[i].0, pc);
    }
  }

  class FdeTable {
    const section: seq<Item>
    var index: seq<(nat, nat)>

    ghost predicate Valid()
      reads this
    {
      index != [] ==> exists m :: Indexes(section, index, m)
    }

    constructor (section: seq<Item>)
      ensures Valid() && this.section == section
    {
      this.section := section;
      index := [];
    }

    method BuildFdeIndex()
      modifies this
      ensures exists m :: Indexes(section, index, m)
    {
      var m := BuildFdeMap(section);
      index := CopyOut(m);
      assert Indexes(section, index, m);
    }

    /** The first FDE in section order that covers `pc`, or none if there is none. */
    method GetFdeFromPc(pc: nat) returns (offset: Option<nat>)
      requires Valid()
      modifies this
      ensures Valid() && offset == FirstFde(section, 0, pc)
    {
      hide Indexes, FirstFde;
      if index == [] {
        BuildFdeIndex();
      }
      ghost var m :| Indexes(section, index, m);
      var i := 0;
      while i < |index| && index[i].0 <= pc
        invariant i <= |index|
        invariant forall j :: 0 <= j < i ==> index[j].0 <= pc
      {
        i := i + 1;
      }
      SearchDecides(section, index, m, pc, i);
      if i == |index| {
        return None;
      }
      var fde := section[index[i].1].fde;
      offset := if fde.pcStart <= pc then Some(index[i].1) else None;
    }
  }
}
