/** The rows of an ordinary prologue, for any alignment factors: one push, after which the CFA is further away and a
    register is saved. */
module PrologueRows {
  import opened OrderedMap
  import opened FdeIndex
  import opened CfaRows
  import opened StepCache
  import D = DwarfExpression
  import R = RegisterEval
  import F = CallerFrame

  const STACK := 7
  const SAVED := 6
  const RETURN := 16

  /** The rules at the entry of a function, from the CIE. */
  function EntryProgram(): seq<Instruction> {
    [DefCfa(STACK, 8), OffsetRule(RETURN, 1)]
  }

  /** After an instruction `delta` units long. */
  function PushProgram(delta: nat): seq<Instruction> {
    [AdvanceLoc(delta), DefCfaOffset(16), OffsetRule(SAVED, 2)]
  }

  function Prologue(fde: Fde, delta: nat, codeAlign: nat, dataAlign: int, signalFrame: bool, arm64: bool): Section {
    Section([FdeItem(fde, false)], map[0 := FdeBody(0, PushProgram(delta))],
            map[0 := Cie(codeAlign, dataAlign, EntryProgram(), RETURN, signalFrame)], DOUBLE_WORD, arm64)
  }

  function EntryRules(dataAlign: int): Rules {
    map[CFA_REG := Register(STACK, 8), RETURN := Offset(dataAlign % DOUBLE_WORD)]
  }

  function PushedRules(dataAlign: int): Rules {
    map[CFA_REG := Register(STACK, 16), RETURN := Offset(dataAlign % DOUBLE_WORD), SAVED := Offset(2 * dataAlign % DOUBLE_WORD)]
  }

  lemma ScaledLong(c: Context, n: nat)
    requires Proper(c) && c.word == DOUBLE_WORD && n < 3
    ensures Scaled(c, n) == n * c.dataAlign % DOUBLE_WORD
  {
    var x := n * c.dataAlign;
    assert CfaRows.Signed(n, DOUBLE_WORD) == n;
    assert CfaRows.Signed(x, DOUBLE_WORD) % DOUBLE_WORD == x % DOUBLE_WORD;
  }

  /** The CIE leaves the rules of the entry for every pc from the start on. */
  lemma EntryRun(s: Section, pc: nat, fde: Fde, delta: nat, codeAlign: nat, dataAlign: int, signalFrame: bool, arm64: bool)
    requires s == Prologue(fde, delta, codeAlign, dataAlign, signalFrame, arm64) && fde.pcStart <= pc && fde.pcStart < DOUBLE_WORD
    ensures IsFde(s, 0)
    ensures CieRun(s, 0, pc) == Found(Machine(Row(EntryRules(dataAlign), fde.pcStart), [], fde.pcStart), fde.pcEnd)
  {
    assert IsFde(s, 0);
    var c, program := ContextOf(s, 0), EntryProgram();
    var first, both: Rules := map[CFA_REG := Register(STACK, 8)], EntryRules(dataAlign);
    var at := fde.pcStart;
    var states := [StartOf(c, map[], []), Machine(Row(first, at), [], at), Machine(Row(both, at), [], at)];
    assert both == first[RETURN := Offset(dataAlign % DOUBLE_WORD)];
    ScaledLong(c, 1);
    hide Scaled, Negated;
    assert Exec(c, None, program[0], states[0]) == Some(states[1]);
    assert Exec(c, None, program[1], states[1]) == Some(states[2]);
    hide Exec, Run;
    AfterEach(c, None, program, states[0], states);
    assert forall j :: 0 <= j <= 2 ==> After(c, None, program, j, states[0]) == Some(states[j]);
    RunThatStops(c, None, program, 0, states[0], pc, 2);
  }

  /** What the machine goes through after that. */
  function PushStates(fde: Fde, mid: nat, dataAlign: int): (states: seq<Machine>)
    ensures |states| == 4
  {
    var at, entry := fde.pcStart, EntryRules(dataAlign);
    [Machine(Row(entry, at), [], at), Machine(Row(entry, at), [], mid),
     Machine(Row(entry[CFA_REG := Register(STACK, 16)], mid), [], mid), Machine(Row(PushedRules(dataAlign), mid), [], mid)]
  }

  lemma PushAfter(s: Section, fde: Fde, delta: nat, codeAlign: nat, dataAlign: int, signalFrame: bool, arm64: bool)
    requires s == Prologue(fde, delta, codeAlign, dataAlign, signalFrame, arm64) && fde.pcEnd < DOUBLE_WORD
    requires fde.pcStart < fde.pcStart + delta * codeAlign <= fde.pcEnd && IsFde(s, 0)
    ensures var states := PushStates(fde, fde.pcStart + delta * codeAlign, dataAlign);
            && StartOf(ContextOf(s, 0), EntryRules(dataAlign), []) == states[0]
            && forall j :: 0 <= j <= 3 ==>
                 After(ContextOf(s, 0), Some(EntryRules(dataAlign)), PushProgram(delta), j, states[0]) == Some(states[j])
  {
    var c, cie, program := ContextOf(s, 0), Some(EntryRules(dataAlign)), PushProgram(delta);
    var mid: nat := fde.pcStart + delta * codeAlign;
    var states := PushStates(fde, mid, dataAlign);
    assert PushedRules(dataAlign) == EntryRules(dataAlign)[CFA_REG := Register(STACK, 16)][SAVED := Offset(2 * dataAlign % DOUBLE_WORD)];
    ScaledLong(c, 2);
    hide Scaled, Negated;
    assert mid % DOUBLE_WORD == mid;
    assert Exec(c, cie, program[0], states[0]) == Some(states[1]);
    assert Exec(c, cie, program[1], states[1]) == Some(states[2]);
    assert Exec(c, cie, program[2], states[2]) == Some(states[3]);
    hide Exec;
    AfterEach(c, cie, program, states[0], states);
  }

  lemma PushRun(s: Section, pc: nat, fde: Fde, delta: nat, codeAlign: nat, dataAlign: int, signalFrame: bool, arm64: bool)
    requires s == Prologue(fde, delta, codeAlign, dataAlign, signalFrame, arm64) && Covers(fde, pc) && fde.pcEnd < DOUBLE_WORD
    requires fde.pcStart < fde.pcStart + delta * codeAlign <= fde.pcEnd && IsFde(s, 0)
    ensures var mid := fde.pcStart + delta * codeAlign;
            FdeRun(s, 0, EntryRules(dataAlign), [], pc) ==
            if pc < mid then Found(Machine(Row(EntryRules(dataAlign), fde.pcStart), [], mid), mid)
            else Found(Machine(Row(PushedRules(dataAlign), mid), [], mid), fde.pcEnd)
  {
    hide After, Run;
    PushAfter(s, fde, delta, codeAlign, dataAlign, signalFrame, arm64);
    var c, cie, program := ContextOf(s, 0), Some(EntryRules(dataAlign)), PushProgram(delta);
    var mid: nat := fde.pcStart + delta * codeAlign;
    RunThatStops(c, cie, program, 0, PushStates(fde, mid, dataAlign)[0], pc, if pc < mid then 1 else 3);
  }

  /** Up to the end of the instruction the rules are those of the entry; from there on, those after the push. The row begins
      and ends there, and the offsets are multiples of the data alignment. */
  lemma PrologueIs(fde: Fde, pc: nat, delta: nat, codeAlign: nat, dataAlign: int, signalFrame: bool, arm64: bool)
    requires Covers(fde, pc) && fde.pcEnd < DOUBLE_WORD && fde.pcStart < fde.pcStart + delta * codeAlign <= fde.pcEnd
    ensures var s, mid := Prologue(fde, delta, codeAlign, dataAlign, signalFrame, arm64), fde.pcStart + delta * codeAlign;
            && Readable(s)
            && FreshRow(s, pc) == Some(CachedRow(
                 if pc < mid then Locations(EntryRules(dataAlign), fde.pcStart, mid) else Locations(PushedRules(dataAlign), mid, fde.pcEnd),
                 Cie(codeAlign, dataAlign, EntryProgram(), RETURN, signalFrame)))
  {
    var s := Prologue(fde, delta, codeAlign, dataAlign, signalFrame, arm64);
    assert FirstFde(s.items, 0, pc) == Some(0);
    hide FirstFde, CieRun, FdeRun;
    EntryRun(s, pc, fde, delta, codeAlign, dataAlign, signalFrame, arm64);
    PushRun(s, pc, fde, delta, codeAlign, dataAlign, signalFrame, arm64);
  }

  // Taking a step out of such a function.

  lemma CieIsTidy(s: Section, fde: Fde, delta: nat, codeAlign: nat, dataAlign: int, signalFrame: bool, arm64: bool)
    requires s == Prologue(fde, delta, codeAlign, dataAlign, signalFrame, arm64) && fde.pcStart < fde.pcEnd < DOUBLE_WORD
    ensures IsFde(s, 0) && TidyCie(s, 0)
  {
    assert IsFde(s, 0);
    forall pc: nat | CieRun(s, 0, pc).Found?
      ensures CieRun(s, 0, pc).machine.stack == []
    {
      if pc >= fde.pcStart {
        EntryRun(s, pc, fde, delta, codeAlign, dataAlign, signalFrame, arm64);
      }
    }
  }

  lemma PushIsTidy(s: Section, fde: Fde, delta: nat, codeAlign: nat, dataAlign: int, signalFrame: bool, arm64: bool)
    requires s == Prologue(fde, delta, codeAlign, dataAlign, signalFrame, arm64) && fde.pcEnd < DOUBLE_WORD
    requires fde.pcStart < fde.pcStart + delta * codeAlign <= fde.pcEnd && IsFde(s, 0)
    ensures TidyFde(s, 0, EntryRules(dataAlign))
  {
    hide After;
    PushAfter(s, fde, delta, codeAlign, dataAlign, signalFrame, arm64);
    var c, cie, program := ContextOf(s, 0), Some(EntryRules(dataAlign)), PushProgram(delta);
    var m := PushStates(fde, fde.pcStart + delta * codeAlign, dataAlign)[0];
    forall j: nat | 0 < j <= |program| && After(c, cie, program, j, m).Some?
      ensures ForwardAt(c, cie, program, m, j)
    {
      assert After(c, cie, program, j - 1, m) == Some(PushStates(fde, fde.pcStart + delta * codeAlign, dataAlign)[j - 1]);
    }
    assert !LastRowPops(c, cie, program, m);
  }

  lemma PrologueIsTidy(fde: Fde, delta: nat, codeAlign: nat, dataAlign: int, signalFrame: bool, arm64: bool)
    requires fde.pcEnd < DOUBLE_WORD && fde.pcStart < fde.pcStart + delta * codeAlign <= fde.pcEnd
    ensures Tidy(Prologue(fde, delta, codeAlign, dataAlign, signalFrame, arm64))
  {
    var s := Prologue(fde, delta, codeAlign, dataAlign, signalFrame, arm64);
    CieIsTidy(s, fde, delta, codeAlign, dataAlign, signalFrame, arm64);
    PushIsTidy(s, fde, delta, codeAlign, dataAlign, signalFrame, arm64);
    hide TidyCie, ForwardFde, PopsHarmlessly, CieRun;
    forall o, pc | StepCache.Owns(s, o, pc)
      ensures ForwardFde(s, o, CieRules(s, o, pc)) && PopsHarmlessly(s, o, CieRules(s, o, pc))
    {
      EntryRun(s, pc, fde, delta, codeAlign, dataAlign, signalFrame, arm64);
    }
  }

  /** The registers of x86-64 in the numbers that DWARF gives them. */
  const X86_64 := R.Arch(RETURN, STACK, false, (pc: nat) => pc)

  /** A step from behind the push, with the return address and the saved register where they were pushed, succeeds and gives
      the registers that the caller had when the call returns. */
  lemma PushIsUndone(fde: Fde, pc: nat, delta: nat, codeAlign: nat, signalFrame: bool, env: D.Env, back: nat, saved: nat,
                     iterate: Rules -> seq<nat>, regs: seq<nat>, finished: bool, isSignalFrame: bool, dexPc: nat, signState: nat)
    requires fde.pcEnd < DOUBLE_WORD && fde.pcStart < fde.pcStart + delta * codeAlign <= pc < fde.pcEnd
    requires env.width == 8 && |env.regs| == 17 && env.regs[STACK] + 16 < DOUBLE_WORD
    requires F.Stored(env, env.regs[STACK], saved) && F.Stored(env, env.regs[STACK] + 8, back)
    ensures var s := Prologue(fde, delta, codeAlign, -8, signalFrame, false);
            && Tidy(s) && CanStep(s, pc, env, X86_64)
            && (Stepped(s, pc, env, X86_64, iterate, regs, finished, isSignalFrame, dexPc, signState) ==>
                  regs == env.regs[SAVED := saved][RETURN := back][STACK := env.regs[STACK] + 16]
                  && (finished <==> back == 0 && !signalFrame) && isSignalFrame == signalFrame)
  {
    var s := Prologue(fde, delta, codeAlign, -8, signalFrame, false);
    PrologueIsTidy(fde, delta, codeAlign, -8, signalFrame, false);
    PrologueIs(fde, pc, delta, codeAlign, -8, signalFrame, false);
    var f := FrameOf(FreshRow(s, pc).value);
    hide FreshRow, Tidy, R.CanEvaluate, R.Evaluated, F.Stored;
    assert f == R.Frame(PushedRules(-8), RETURN, signalFrame);
    FrameIsUndone(env, signalFrame, f, back, saved, iterate(f.rules), regs, finished, dexPc, signState);
  }

  lemma FrameIsUndone(env: D.Env, signalFrame: bool, f: R.Frame, back: nat, saved: nat,
                      order: seq<nat>, regs: seq<nat>, finished: bool, dexPc: nat, signState: nat)
    requires f == R.Frame(PushedRules(-8), RETURN, signalFrame)
    requires env.width == 8 && |env.regs| == 17 && env.regs[STACK] + 16 < DOUBLE_WORD && env.Proper()
    requires F.Stored(env, env.regs[STACK], saved) && F.Stored(env, env.regs[STACK] + 8, back)
    ensures R.CanEvaluate(env, X86_64, f)
    ensures R.Evaluated(env, X86_64, f, order, regs, finished, dexPc, signState) ==>
              regs == env.regs[SAVED := saved][RETURN := back][STACK := env.regs[STACK] + 16] && (finished <==> back == 0 && !signalFrame)
  {
    var cfa: nat := env.regs[STACK] + 16;
    var all := env.regs[SAVED := saved][RETURN := back];
    hide R.CanEvaluate, R.Evaluated, F.Stored;
    OffsetsReach(env.regs[STACK]);
    assert F.Saves(env, f, cfa, all);
    F.FrameIsRestored(env, X86_64, f, cfa, all, order, regs, finished, dexPc, signState);
  }

  lemma OffsetsReach(sp: nat)
    requires sp + 16 < DOUBLE_WORD
    ensures (sp + 16) % DOUBLE_WORD == sp + 16
    ensures (sp + 16 + (-8) % DOUBLE_WORD) % DOUBLE_WORD == sp + 8 && (sp + 16 + (2 * -8) % DOUBLE_WORD) % DOUBLE_WORD == sp
  {
    assert (-8) % DOUBLE_WORD == DOUBLE_WORD - 8 && (2 * -8) % DOUBLE_WORD == DOUBLE_WORD - 16;
  }
}
