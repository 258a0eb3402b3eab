/** The two caches that Step keeps over the row machine: the rules of a CIE by its offset, and rows by the end of their
    range. */
module StepCache {
  import opened OrderedMap
  import opened FdeIndex
  import opened CfaRows
  import D = DwarfExpression
  import R = RegisterEval

  /** What a CIE says: the alignment factors, its program, the return address register, and whether it describes a signal
      frame. */
  datatype Cie = Cie(codeAlign: nat, dataAlign: int, program: seq<Instruction>, ra: nat, signalFrame: bool)

  /** The part of an FDE that the row machine reads, beside its range. */
  datatype FdeBody = FdeBody(cieOffset: nat, program: seq<Instruction>)

  /** A section: its entries in order, what its FDEs say, and the CIEs that can be read, by offset. */
  datatype Section = Section(items: seq<Item>, fdes: map<nat, FdeBody>, cies: map<nat, Cie>, word: nat, arm64: bool)

  ghost predicate Readable(s: Section) {
    && (s.word == 0x1_0000_0000 || s.word == DOUBLE_WORD)
    && forall o :: 0 <= o < |s.items| && s.items[o].FdeItem? ==> o in s.fdes && s.items[o].fde.pcStart < s.word
  }

  ghost predicate IsFde(s: Section, o: nat) {
    Readable(s) && o < |s.items| && s.items[o].FdeItem? && s.fdes[o].cieOffset in s.cies
  }

  function ContextOf(s: Section, o: nat): (c: Context)
    requires IsFde(s, o)
    ensures CfaRows.Proper(c)
  {
    var cie := s.cies[s.fdes[o].cieOffset];
    Context(s.items[o].fde.pcStart, s.items[o].fde.pcEnd, cie.codeAlign, cie.dataAlign, s.word, s.arm64)
  }

  function StartOf(c: Context, rules: Rules, stack: seq<Row>): Machine {
    Machine(Row(rules, c.pcStart), stack, c.pcStart)
  }

  /** Running the CIE's program for an FDE and a pc. */
  function CieRun(s: Section, o: nat, pc: nat): Outcome
    requires IsFde(s, o)
  {
    var c := ContextOf(s, o);
    Run(c, None, s.cies[s.fdes[o].cieOffset].program, 0, StartOf(c, map[], []), pc)
  }

  /** Running the FDE's program after it. */
  function FdeRun(s: Section, o: nat, rules: Rules, stack: seq<Row>, pc: nat): Outcome
    requires IsFde(s, o)
  {
    var c := ContextOf(s, o);
    Run(c, Some(rules), s.fdes[o].program, 0, StartOf(c, rules, stack), pc)
  }

  /** What Step hands to the evaluation of registers. */
  datatype CachedRow = CachedRow(locs: Locations, cie: Cie)

  /** The row for a pc computed from nothing. */
  function FreshRow(s: Section, pc: nat): Option<CachedRow>
    requires Readable(s)
  {
    var fde := FirstFde(s.items, 0, pc);
    if fde.None? || s.fdes[fde.value].cieOffset !in s.cies then None else RowOf(s, fde.value, pc)
  }

  function RowOf(s: Section, o: nat, pc: nat): Option<CachedRow>
    requires IsFde(s, o)
  {
    match CieRun(s, o, pc)
    case Failed => None
    case Found(after, _) =>
      match FdeRun(s, o, after.row.rules, after.stack, pc)
      case Failed => None
      case Found(m, pcEnd) => Some(CachedRow(Locations(m.row.rules, m.row.pcStart, pcEnd), s.cies[s.fdes[o].cieOffset]))
  }

  /** No two FDEs cover one pc. */
  ghost predicate DisjointFdes(items: seq<Item>) {
    forall i, j, pc: nat :: Describes(items, 0, i, pc) && Describes(items, 0, j, pc) ==> i == j
  }

  predicate MovesLocation(i: Instruction) {
    i.AdvanceLoc? || i.SetLoc?
  }

  /** A CIE program that never moves the location and leaves no remembered state behind. */
  ghost predicate TidyCie(s: Section, o: nat)
    requires IsFde(s, o)
  {
    && (forall i :: i in s.cies[s.fdes[o].cieOffset].program ==> !MovesLocation(i))
    && forall pc: nat :: CieRun(s, o, pc).Found? ==> CieRun(s, o, pc).machine.stack == []
  }

  /** An FDE program that never moves back and stays inside the FDE. */
  ghost predicate ForwardFde(s: Section, o: nat, rules: Rules)
    requires IsFde(s, o)
  {
    var c, program := ContextOf(s, o), s.fdes[o].program;
    var m := StartOf(c, rules, []);
    NeverBack(c, Some(rules), program, m) && forall j :: 0 <= j <= |program| ==> Inside(c, Some(rules), program, m, j)
  }

  /** If it ends by restoring a state remembered in an earlier row, what that draws into the last row has its rules. */
  ghost predicate PopsHarmlessly(s: Section, o: nat, rules: Rules)
    requires IsFde(s, o)
  {
    var c := ContextOf(s, o);
    HarmlessPop(c, Some(rules), s.fdes[o].program, StartOf(c, rules, []))
  }

  ghost predicate TidyFde(s: Section, o: nat, rules: Rules)
    requires IsFde(s, o)
  {
    ForwardFde(s, o, rules) && PopsHarmlessly(s, o, rules)
  }

  ghost predicate Inside(c: Context, cie: Option<Rules>, program: seq<Instruction>, m: Machine, j: nat)
    requires CfaRows.Proper(c) && j <= |program|
  {
    After(c, cie, program, j, m).Some? ==> After(c, cie, program, j, m).value.pc <= c.pcEnd
  }

  /** The pc belongs to the FDE, whose CIE program can be run for it. */
  ghost predicate Owns(s: Section, o: nat, pc: nat) {
    IsFde(s, o) && FirstFde(s.items, 0, pc) == Some(o) && CieRun(s, o, pc).Found?
  }

  function CieRules(s: Section, o: nat, pc: nat): Rules
    requires Owns(s, o, pc)
  {
    CieRun(s, o, pc).machine.row.rules
  }

  /** FDEs that do not overlap, with programs that only go forward and CIEs that set up rules and nothing else. */
  ghost predicate NearlyTidy(s: Section) {
    && Readable(s) && DisjointFdes(s.items)
    && (forall o :: IsFde(s, o) ==> TidyCie(s, o))
    && forall o, pc :: Owns(s, o, pc) ==> ForwardFde(s, o, CieRules(s, o, pc))
  }

  ghost predicate AllPopsHarmless(s: Section) {
    forall o, pc :: Owns(s, o, pc) ==> PopsHarmlessly(s, o, CieRules(s, o, pc))
  }

  ghost predicate Tidy(s: Section) {
    NearlyTidy(s) && AllPopsHarmless(s)
  }

  /** The two machines hold the same rules, wherever they stand. */
  ghost predicate SameRulesIn(m: Machine, m': Machine) {
    m.row.rules == m'.row.rules && |m.stack| == |m'.stack| && forall i :: 0 <= i < |m.stack| ==> m.stack[i].rules == m'.stack[i].rules
  }

  ghost predicate SameCie(c: Context, c': Context) {
    c.codeAlign == c'.codeAlign && c.dataAlign == c'.dataAlign && c.word == c'.word && c.arm64 == c'.arm64
  }

  lemma RuleAlike(c: Context, c': Context, cie: Option<Rules>, i: Instruction, rules: Rules)
    requires CfaRows.Proper(c) && CfaRows.Proper(c') && SameCie(c, c')
    ensures Rule(c, cie, i, rules) == Rule(c', cie, i, rules)
  {
  }

  lemma ExecAlike(c: Context, c': Context, cie: Option<Rules>, i: Instruction, m: Machine, m': Machine)
    requires CfaRows.Proper(c) && CfaRows.Proper(c') && SameCie(c, c') && SameRulesIn(m, m') && !MovesLocation(i)
    ensures match (Exec(c, cie, i, m), Exec(c', cie, i, m'))
            case (None, None) => true
            case (Some(n), Some(n')) => SameRulesIn(n, n') && n.pc == m.pc && n'.pc == m'.pc
            case _ => false
  {
    RuleAlike(c, c', cie, i, m.row.rules);
    hide Rule;
  }

  /** A program that never moves the location does the same to the rules for every FDE of the CIE and every pc. */
  lemma {:induction false} RunAlike(c: Context, c': Context, program: seq<Instruction>, k: nat, m: Machine, m': Machine, pc: nat, pc': nat)
    requires CfaRows.Proper(c) && CfaRows.Proper(c') && SameCie(c, c') && SameRulesIn(m, m') && k <= |program|
    requires m.pc <= pc && m'.pc <= pc' && forall i :: i in program ==> !MovesLocation(i)
    ensures match (Run(c, None, program, k, m, pc), Run(c', None, program, k, m', pc'))
            case (Failed, Failed) => true
            case (Found(n, _), Found(n', _)) => SameRulesIn(n, n')
            case _ => false
    decreases |program| - k
  {
    hide Exec;
    if k < |program| {
      ExecAlike(c, c', None, program[k], m, m');
      if Exec(c, None, program[k], m).Some? {
        RunAlike(c, c', program, k + 1, Exec(c, None, program[k], m).value, Exec(c', None, program[k], m').value, pc, pc');
      }
    }
  }

  /** The rules a CIE gives do not depend on the FDE and the pc they were computed for. */
  lemma CieRulesAgree(s: Section, o: nat, pc: nat, o': nat, pc': nat)
    requires IsFde(s, o) && IsFde(s, o') && s.fdes[o].cieOffset == s.fdes[o'].cieOffset && TidyCie(s, o)
    requires Covers(s.items[o].fde, pc) && Covers(s.items[o'].fde, pc')
    ensures CieRun(s, o, pc).Found? == CieRun(s, o', pc').Found?
    ensures CieRun(s, o, pc).Found? ==> CieRun(s, o, pc).machine.row.rules == CieRun(s, o', pc').machine.row.rules
  {
    hide Run;
    var c, c' := ContextOf(s, o), ContextOf(s, o');
    RunAlike(c, c', s.cies[s.fdes[o].cieOffset].program, 0, StartOf(c, map[], []), StartOf(c', map[], []), pc, pc');
  }

  lemma FdeOf(s: Section, o: nat, pc: nat, pc': nat)
    requires Readable(s) && DisjointFdes(s.items) && FirstFde(s.items, 0, pc) == Some(o) && Covers(s.items[o].fde, pc')
    ensures FirstFde(s.items, 0, pc') == Some(o)
  {
    FirstFdeIsLeast(s.items, 0, pc);
    FirstFdeIsLeast(s.items, 0, pc');
    assert Describes(s.items, 0, o, pc');
  }

  /** A row reported for one pc lies inside its FDE and holds the rules of every pc in its range. */
  lemma RowInFde(s: Section, o: nat, rules: Rules, p: nat, pc: nat)
    requires IsFde(s, o) && TidyFde(s, o, rules) && Covers(s.items[o].fde, p)
    requires FdeRun(s, o, rules, [], p).Found?
    requires FdeRun(s, o, rules, [], p).machine.row.pcStart <= pc < FdeRun(s, o, rules, [], p).pcEnd
    ensures Covers(s.items[o].fde, pc)
    ensures FdeRun(s, o, rules, [], pc).Found?
    ensures FdeRun(s, o, rules, [], pc).machine.row.rules == FdeRun(s, o, rules, [], p).machine.row.rules
  {
    hide Run, Exec;
    var c, program := ContextOf(s, o), s.fdes[o].program;
    var m := StartOf(c, rules, []);
    RangesServeIff(c, Some(rules), program, m);
    assert RangeServes(c, Some(rules), program, m, p, pc);
    hide NeverBack;
    var n := RunStops(c, Some(rules), program, 0, m, p);
    RunThatStops(c, Some(rules), program, 0, m, p, n);
    assert Inside(c, Some(rules), program, m, n);
    StartsStayWithin(c, Some(rules), program, m, n);
  }

  /** A row computed for one pc serves every pc in its range. */
  lemma RowServes(s: Section, p: nat, pc: nat)
    requires Tidy(s) && FreshRow(s, p).Some?
    requires FreshRow(s, p).value.locs.pcStart <= pc < FreshRow(s, p).value.locs.pcEnd
    ensures FreshRow(s, pc).Some?
    ensures FreshRow(s, pc).value.locs.rules == FreshRow(s, p).value.locs.rules
    ensures FreshRow(s, pc).value.cie == FreshRow(s, p).value.cie
  {
    hide CieRun, FdeRun, FirstFde, ForwardFde, PopsHarmlessly;
    var o := FirstFde(s.items, 0, p).value;
    var rules := CieRun(s, o, p).machine.row.rules;
    assert Owns(s, o, p) && TidyCie(s, o);
    RowInFde(s, o, rules, p, pc);
    FdeOf(s, o, p, pc);
    CieRulesAgree(s, o, p, o, pc);
  }

  /** Rows with the same end are the same row: an insertion into the cache never meets another row. */
  lemma SameKeySameRow(s: Section, p: nat, q: nat)
    requires Tidy(s) && FreshRow(s, p).Some? && FreshRow(s, q).Some?
    requires FreshRow(s, p).value.locs.pcEnd == FreshRow(s, q).value.locs.pcEnd
    ensures FreshRow(s, p) == FreshRow(s, q)
  {
    hide CieRun, FirstFde, ForwardFde, PopsHarmlessly, Run;
    var o, o' := FirstFde(s.items, 0, p).value, FirstFde(s.items, 0, q).value;
    assert Owns(s, o, p) && Owns(s, o', q) && TidyCie(s, o) && TidyCie(s, o');
    var rules, rules' := CieRun(s, o, p).machine.row.rules, CieRun(s, o', q).machine.row.rules;
    RowHoldsPc(s, o, rules, p);
    RowHoldsPc(s, o', rules', q);
    var last := FreshRow(s, p).value.locs.pcEnd - 1;
    RowInFde(s, o, rules, p, last);
    RowInFde(s, o', rules', q, last);
    FdeOf(s, o, p, last);
    FdeOf(s, o', q, last);
    CieRulesAgree(s, o, p, o, q);
    SameEnd(s, o, rules, p, q);
  }

  lemma SameEnd(s: Section, o: nat, rules: Rules, p: nat, q: nat)
    requires IsFde(s, o) && TidyFde(s, o, rules) && Covers(s.items[o].fde, p) && Covers(s.items[o].fde, q)
    requires FdeRun(s, o, rules, [], p).Found? && FdeRun(s, o, rules, [], q).Found?
    requires FdeRun(s, o, rules, [], p).pcEnd == FdeRun(s, o, rules, [], q).pcEnd
    ensures FdeRun(s, o, rules, [], p) == FdeRun(s, o, rules, [], q)
  {
    hide Run, After;
    var c := ContextOf(s, o);
    SameEndSameRow(c, Some(rules), s.fdes[o].program, StartOf(c, rules, []), p, q);
  }

  lemma RowHoldsPc(s: Section, o: nat, rules: Rules, p: nat)
    requires IsFde(s, o) && TidyFde(s, o, rules) && Covers(s.items[o].fde, p) && FdeRun(s, o, rules, [], p).Found?
    ensures FdeRun(s, o, rules, [], p).machine.row.pcStart <= p < FdeRun(s, o, rules, [], p).pcEnd
  {
    hide Run, After, Exec;
    var c, program := ContextOf(s, o), s.fdes[o].program;
    var m := StartOf(c, rules, []);
    assert After(c, Some(rules), program, 0, m) == Some(m) by { AfterNone(c, Some(rules), program, m); }
    var n := RunStops(c, Some(rules), program, 0, m, p);
    RowIsValid(c, Some(rules), program, m, p, n);
  }

  lemma AfterNone(c: Context, cie: Option<Rules>, program: seq<Instruction>, m: Machine)
    requires CfaRows.Proper(c)
    ensures After(c, cie, program, 0, m) == Some(m)
  {
  }

  /** A cached CIE holds what running its program gives for any of its FDEs. */
  ghost predicate CieEntry(s: Section, offset: nat, rules: Rules) {
    forall o: nat, pc: nat :: IsFde(s, o) && s.fdes[o].cieOffset == offset && Covers(s.items[o].fde, pc) ==>
      CieRun(s, o, pc).Found? && CieRun(s, o, pc).machine.row.rules == rules
  }

  /** A cached row is the one computed for some pc, and is kept under its end. */
  ghost predicate RowEntry(s: Section, end: nat, row: CachedRow)
    requires Readable(s)
  {
    row.locs.pcEnd == end && exists p: nat :: FreshRow(s, p) == Some(row)
  }

  ghost predicate Faithful(s: Section, cies: map<nat, Rules>, rows: map<nat, CachedRow>)
    requires Readable(s)
  {
    && (forall offset :: offset in cies ==> CieEntry(s, offset, cies[offset]))
    && forall end :: end in rows ==> RowEntry(s, end, rows[end])
  }

  lemma NewCieEntry(s: Section, o: nat, pc: nat)
    requires IsFde(s, o) && TidyCie(s, o) && Covers(s.items[o].fde, pc) && CieRun(s, o, pc).Found?
    ensures CieEntry(s, s.fdes[o].cieOffset, CieRun(s, o, pc).machine.row.rules)
  {
    hide CieRun;
    forall o': nat, pc': nat | IsFde(s, o') && s.fdes[o'].cieOffset == s.fdes[o].cieOffset && Covers(s.items[o'].fde, pc')
      ensures CieRun(s, o', pc').Found? && CieRun(s, o', pc').machine.row.rules == CieRun(s, o, pc).machine.row.rules
    {
      CieRulesAgree(s, o, pc, o', pc');
    }
  }

  /** What the evaluation of registers takes from a row. */
  function FrameOf(row: CachedRow): R.Frame {
    R.Frame(row.locs.rules, row.cie.ra, row.cie.signalFrame)
  }

  /** Each set of rules is iterated in some order. */
  ghost predicate Iterates(iterate: Rules -> seq<nat>) {
    forall rules :: R.IsOrder(iterate(rules), rules)
  }

  /** There is a row for the pc, and it can be evaluated. */
  ghost predicate CanStep(s: Section, pc: nat, env: D.Env, arch: R.Arch)
    requires Readable(s) && env.Proper()
  {
    FreshRow(s, pc).Some? && R.CanEvaluate(env, arch, FrameOf(FreshRow(s, pc).value))
  }

  /** The registers are what the row computed from nothing makes of them. */
  ghost predicate Stepped(s: Section, pc: nat, env: D.Env, arch: R.Arch, iterate: Rules -> seq<nat>, regs: seq<nat>,
                          finished: bool, isSignalFrame: bool, dexPc: nat, signState: nat)
    requires Readable(s) && env.Proper()
  {
    && FreshRow(s, pc).Some?
    && var f := FrameOf(FreshRow(s, pc).value);
    R.Evaluated(env, arch, f, iterate(f.rules), regs, finished, dexPc, signState) && isSignalFrame == f.signalFrame
  }

  class DwarfSection {
    const s: Section
    const table: FdeTable
    var cieRules: map<nat, Rules>
    var rows: map<nat, CachedRow>

    ghost predicate Valid()
      reads this, table
    {
      && Readable(s) && table.section == s.items && table.Valid()
      && (forall end :: end in rows ==> rows[end].locs.pcEnd == end)
      && (Tidy(s) ==> Faithful(s, cieRules, rows))
    }

    constructor (s: Section)
      requires Readable(s)
      ensures Valid() && this.s == s && fresh(table) && rows == map[] && cieRules == map[]
    {
      this.s := s;
      table := new FdeTable(s.items);
      cieRules, rows := map[], map[];
    }

    method GetCfaLocationInfo(pc: nat, o: nat) returns (ok: bool, locs: Locations)
      requires Valid() && IsFde(s, o) && Covers(s.items[o].fde, pc)
      modifies this`cieRules
      ensures Valid()
      ensures Tidy(s) || s.fdes[o].cieOffset !in old(cieRules) ==>
                ok == RowOf(s, o, pc).Some? && (ok ==> locs == RowOf(s, o, pc).value.locs)
    {
      hide Run, ForwardFde, AllPopsHarmless, FirstFde, Indexes;
      var offset := s.fdes[o].cieOffset;
      var cfa := new DwarfCfa(ContextOf(s, o));
      locs := Locations(map[], 0, 0);
      assert Tidy(s) ==> TidyCie(s, o);
      if offset !in cieRules {
        assert WithCie(locs.rules, None) == map[];
        ok, locs := cfa.GetLocationInfo(pc, s.cies[offset].program, locs);
        assert ok == CieRun(s, o, pc).Found?;
        if !ok {
          return;
        }
        cieRules := cieRules[offset := locs.rules];
        if Tidy(s) {
          NewCieEntry(s, o, pc);
        }
      }
      assert locs.rules == map[] || locs.rules == cieRules[offset];
      assert WithCie(locs.rules, Some(cieRules[offset])) == cieRules[offset];
      assert Tidy(s) ==> CieEntry(s, offset, cieRules[offset]);
      cfa.cieRules := Some(cieRules[offset]);
      ok, locs := cfa.GetLocationInfo(pc, s.fdes[o].program, locs);
    }

    /** The row Step evaluates the registers with. Whatever was looked up before, it has the rules of a row computed from
        nothing, and an insertion never finds its key taken. A cached row whose range holds the pc is used in any case. */
    method FindRow(pc: nat) returns (used: Option<CachedRow>)
      requires Valid()
      modifies this`cieRules, this`rows, table
      ensures Valid()
      ensures Tidy(s) ==> used.Some? == FreshRow(s, pc).Some?
      ensures Tidy(s) && used.Some? ==>
                used.value.locs.rules == FreshRow(s, pc).value.locs.rules && used.value.cie == FreshRow(s, pc).value.cie
      ensures used.Some? ==> used.value.locs.pcEnd in rows && rows[used.value.locs.pcEnd] == used.value
      ensures forall end :: end in old(rows) ==> end in rows && rows[end] == old(rows)[end]
      ensures forall end :: IsUpperBound(old(rows), pc, Some(end)) && old(rows)[end].locs.pcStart <= pc ==> used == Some(old(rows)[end])
      ensures old(rows) == map[] && old(cieRules) == map[] ==>
                used == FreshRow(s, pc) && (used.Some? ==> rows == map[used.value.locs.pcEnd := used.value])
    {
      hide Indexes, FirstFde, CieRun, FdeRun, Tidy, RowOf, FreshRow, Faithful;
      used := None;
      var end := UpperBound(rows, pc);
      if end.Some? && rows[end.value].locs.pcStart <= pc {
        used := Some(rows[end.value]);
        if Tidy(s) {
          HitServes(s, cieRules, rows, end.value, pc);
        }
        return;
      }
      var o := table.GetFdeFromPc(pc);
      FreshRowOf(s, pc);
      if o.None? || s.fdes[o.value].cieOffset !in s.cies {
        return;
      }
      var ok, locs := GetCfaLocationInfo(pc, o.value);
      if !ok {
        return;
      }
      var row := CachedRow(locs, s.cies[s.fdes[o.value].cieOffset]);
      ghost var known := Tidy(s) || (old(rows) == map[] && old(cieRules) == map[]);
      assert known ==> FreshRow(s, pc) == Some(row) by {
        if known {
          RowOfCie(s, o.value, pc);
        }
      }
      if locs.pcEnd !in rows {
        if Tidy(s) {
          RowAdded(s, cieRules, rows, row, pc);
        }
        rows := rows[locs.pcEnd := row];
      } else if Tidy(s) {
        CollisionAgrees(s, cieRules, rows, locs.pcEnd, pc);
      }
      used := Some(rows[locs.pcEnd]);
    }

    /** Takes the registers one frame up. Whatever was looked up before, they become what the rules of a row computed from
        nothing make of them, and it fails exactly when there is no such row or it cannot be evaluated. */
    method Step(pc: nat, env: D.Env, r: R.Registers, iterate: Rules -> seq<nat>) returns (ok: bool, finished: bool, isSignalFrame: bool)
      requires Valid() && env.Proper() && r.Valid() && env.regs == r.regs[..] && Iterates(iterate)
      modifies this`cieRules, this`rows, table, r, r.regs
      ensures Valid()
      ensures Tidy(s) ==> (ok <==> CanStep(s, pc, env, r.arch))
      ensures Tidy(s) && ok ==> Stepped(s, pc, env, r.arch, iterate, r.regs[..], finished, isSignalFrame, r.dexPc, r.signState)
    {
      hide Tidy, FreshRow, R.CanEvaluate, R.Evaluated, Faithful;
      var row := FindRow(pc);
      if row.None? {
        return false, false, false;
      }
      isSignalFrame := row.value.cie.signalFrame;
      var f := FrameOf(row.value);
      assert R.IsOrder(iterate(f.rules), f.rules);
      ok, finished := R.Eval(env, f, iterate(f.rules), r);
    }
  }

  lemma RowOfCie(s: Section, o: nat, pc: nat)
    requires IsFde(s, o) && RowOf(s, o, pc).Some?
    ensures RowOf(s, o, pc).value.cie == s.cies[s.fdes[o].cieOffset]
  {
  }

  lemma FreshRowOf(s: Section, pc: nat)
    requires Readable(s)
    ensures match FirstFde(s.items, 0, pc)
            case None => FreshRow(s, pc) == None
            case Some(o) => FreshRow(s, pc) == if s.fdes[o].cieOffset in s.cies then RowOf(s, o, pc) else None
  {
    hide RowOf;
  }

  lemma HitServes(s: Section, cies: map<nat, Rules>, rows: map<nat, CachedRow>, end: nat, pc: nat)
    requires Tidy(s) && Faithful(s, cies, rows) && end in rows && rows[end].locs.pcStart <= pc < end
    ensures FreshRow(s, pc).Some?
    ensures FreshRow(s, pc).value.locs.rules == rows[end].locs.rules && FreshRow(s, pc).value.cie == rows[end].cie
  {
    hide FreshRow, AllPopsHarmless;
    assert RowEntry(s, end, rows[end]);
    var p: nat :| FreshRow(s, p) == Some(rows[end]);
    RowServes(s, p, pc);
  }

  lemma CollisionAgrees(s: Section, cies: map<nat, Rules>, rows: map<nat, CachedRow>, end: nat, pc: nat)
    requires Tidy(s) && Faithful(s, cies, rows) && end in rows && FreshRow(s, pc).Some? && FreshRow(s, pc).value.locs.pcEnd == end
    ensures FreshRow(s, pc) == Some(rows[end])
  {
    hide FreshRow, AllPopsHarmless;
    assert RowEntry(s, end, rows[end]);
    var p: nat :| FreshRow(s, p) == Some(rows[end]);
    SameKeySameRow(s, p, pc);
  }

  lemma RowAdded(s: Section, cies: map<nat, Rules>, rows: map<nat, CachedRow>, row: CachedRow, pc: nat)
    requires Readable(s) && Faithful(s, cies, rows) && FreshRow(s, pc) == Some(row)
    ensures Faithful(s, cies, rows[row.locs.pcEnd := row])
  {
    hide FreshRow;
  }

  // What the cache does when a pop is not harmless.

  /** With nothing cached, asking for one pc and then for another in the range reported for it uses the row of the first
      for both, in any section. */
  method AskedAfter(s: Section, p: nat, pc: nat) returns (first: Option<CachedRow>, second: Option<CachedRow>)
    requires Readable(s) && FreshRow(s, p).Some?
    requires FreshRow(s, p).value.locs.pcStart <= pc < FreshRow(s, p).value.locs.pcEnd
    ensures first == second == FreshRow(s, p)
  {
    hide FreshRow;
    var section := new DwarfSection(s);
    first := section.FindRow(p);
    assert IsUpperBound(section.rows, pc, Some(first.value.locs.pcEnd));
    second := section.FindRow(pc);
  }

  /** The row computed for p has the rules and the CIE that pc gets, if the range reported for p holds pc. */
  ghost predicate Serves(s: Section, p: nat, pc: nat)
    requires Readable(s)
  {
    var row := FreshRow(s, p);
    row.Some? && row.value.locs.pcStart <= pc < row.value.locs.pcEnd ==>
      var own := FreshRow(s, pc);
      own.Some? && own.value.locs.rules == row.value.locs.rules && own.value.cie == row.value.cie
  }

  /** If all else is in order, a cached row serves every pc in its range if and only if the pops at the ends of programs are
      harmless. If one is not, AskedAfter says what the cache does. */
  lemma RowsServeIff(s: Section)
    requires NearlyTidy(s)
    ensures AllPopsHarmless(s) <==> forall p: nat, pc: nat :: Serves(s, p, pc)
  {
    hide FreshRow, CieRun, FirstFde, ForwardFde, PopsHarmlessly;
    if AllPopsHarmless(s) {
      forall p: nat, pc: nat
        ensures Serves(s, p, pc)
      {
        var row := FreshRow(s, p);
        if row.Some? && row.value.locs.pcStart <= pc < row.value.locs.pcEnd {
          RowServes(s, p, pc);
        }
      }
    } else {
      var o, pc0 :| Owns(s, o, pc0) && !PopsHarmlessly(s, o, CieRules(s, o, pc0));
      var p, pc := HarmfulPop(s, o, pc0);
    }
  }

  /** The fresh row of any pc of an FDE, in terms of the rules of its CIE. */
  lemma FreshIs(s: Section, o: nat, pc0: nat, p: nat)
    requires NearlyTidy(s) && Owns(s, o, pc0) && Covers(s.items[o].fde, p)
    ensures match FdeRun(s, o, CieRules(s, o, pc0), [], p)
            case Failed => FreshRow(s, p) == None
            case Found(m, pcEnd) =>
              FreshRow(s, p) == Some(CachedRow(Locations(m.row.rules, m.row.pcStart, pcEnd), s.cies[s.fdes[o].cieOffset]))
  {
    hide FirstFde, CieRun, FdeRun, ForwardFde;
    FdeOf(s, o, pc0, p);
    assert TidyCie(s, o);
    CieRulesAgree(s, o, pc0, o, p);
  }

  /** A pop that is not harmless makes a row that does not serve its range. */
  lemma HarmfulPop(s: Section, o: nat, pc0: nat) returns (p: nat, pc: nat)
    requires NearlyTidy(s) && Owns(s, o, pc0) && !PopsHarmlessly(s, o, CieRules(s, o, pc0))
    ensures FreshRow(s, p).Some? && FreshRow(s, p).value.locs.pcStart <= pc < FreshRow(s, p).value.locs.pcEnd && pc < p
    ensures FreshRow(s, pc).Some? ==> FreshRow(s, pc).value.locs.rules != FreshRow(s, p).value.locs.rules
    ensures !Serves(s, p, pc)
  {
    hide Run, NeverBack, FreshRow, HarmlessPop, FirstFde;
    var c, program, rules := ContextOf(s, o), s.fdes[o].program, CieRules(s, o, pc0);
    var m := StartOf(c, rules, []);
    assert ForwardFde(s, o, rules);
    pc := PopReachesBack(c, Some(rules), program, m);
    var n := |program|;
    p := RowStart(c, Some(rules), program, m, n);
    assert Covers(s.items[o].fde, p);
    FreshIs(s, o, pc0, p);
    RunStart(c, Some(rules), program, m, p);
    FreshIs(s, o, pc0, pc);
  }

  lemma RunStart(c: Context, cie: Option<Rules>, program: seq<Instruction>, m: Machine, p: nat)
    requires CfaRows.Proper(c) && NeverBack(c, cie, program, m) && StartsFrom(c, m) && Run(c, cie, program, 0, m, p).Found?
    ensures c.pcStart <= Run(c, cie, program, 0, m, p).machine.row.pcStart
  {
    hide Run, NeverBack, Exec;
    assert After(c, cie, program, 0, m) == Some(m);
    var n := RunStops(c, cie, program, 0, m, p);
    RunThatStops(c, cie, program, 0, m, p, n);
    StartsStayWithin(c, cie, program, m, n);
  }

  /** The section whose one FDE ends in a pop that is not harmless. */
  function PopSection(): Section {
    var program := [RememberState, AdvanceLoc(4), UndefinedRule(1), AdvanceLoc(4), RestoreState];
    Section([FdeItem(Fde(0x100, 0x200), false)], map[0 := FdeBody(0, program)], map[0 := Cie(1, 1, [], 30, false)], DOUBLE_WORD, false)
  }

  lemma PopSectionRows()
    ensures Readable(PopSection())
    ensures FreshRow(PopSection(), 0x108) == Some(CachedRow(Locations(map[], 0x100, 0x200), Cie(1, 1, [], 30, false)))
    ensures FreshRow(PopSection(), 0x104) == Some(CachedRow(Locations(map[1 := Undefined], 0x104, 0x108), Cie(1, 1, [], 30, false)))
  {
    var s := PopSection();
    assert IsFde(s, 0);
    assert CieRun(s, 0, 0x108) == Found(StartOf(ContextOf(s, 0), map[], []), 0x200);
    assert CieRun(s, 0, 0x104) == Found(StartOf(ContextOf(s, 0), map[], []), 0x200);
    hide Run;
    TrailingPopReachesBack(Some(map[]));
  }

  /** Asking for the last row of it and then for the row before gives the second lookup the rules of the first. */
  method PopRun() returns (first: Option<CachedRow>, second: Option<CachedRow>)
    ensures first.Some? && second == first && first.value.locs.rules == map[]
    ensures Readable(PopSection()) && FreshRow(PopSection(), 0x104).Some?
    ensures FreshRow(PopSection(), 0x104).value.locs.rules == map[1 := Undefined]
  {
    hide FreshRow;
    PopSectionRows();
    first, second := AskedAfter(PopSection(), 0x108, 0x104);
  }
}
