/** Taking the registers one frame up: the rules of a row are evaluated one after another, in whatever order an unordered
    map gives them, and together they are one parallel assignment. */
module RegisterEval {
  import opened OrderedMap
  import opened DwarfMemory
  import D = DwarfExpression
  import opened CfaRows

  const MAX_REGISTERS := 64

  /** The registers with the copies of those that have been overwritten; the bit map of the copies is the set of its bits. */
  class RegsInfo {
    const regs: array<nat>
    var saved: set<nat>
    const savedRegs: array<nat>

    ghost predicate Valid()
      reads this
    {
      && regs.Length <= MAX_REGISTERS && savedRegs.Length == MAX_REGISTERS && regs != savedRegs
      && forall r :: r in saved ==> r < regs.Length
    }

    constructor (regs: array<nat>)
      requires regs.Length <= MAX_REGISTERS
      ensures Valid() && this.regs == regs && saved == {} && fresh(savedRegs)
    {
      this.regs := regs;
      saved := {};
      savedRegs := new nat[MAX_REGISTERS];
    }

    predicate IsSaved(reg: nat)
      reads this
    {
      reg in saved
    }

    function Get(reg: nat): nat
      requires Valid() && reg < regs.Length
      reads this, regs, savedRegs
    {
      if IsSaved(reg) then savedRegs[reg] else regs[reg]
    }

    /** Lets a register be overwritten: from now on Get gives what it holds now, and what it gave before for all others. So
        a first save changes nothing that Get gives; a second one takes up what has been written. */
    method Save(reg: nat)
      requires Valid() && reg < regs.Length
      modifies this`saved, savedRegs
      ensures Valid() && saved == old(saved) + {reg}
      ensures forall r :: 0 <= r < regs.Length ==> Get(r) == if r == reg then regs[reg] else old(Get(r))
    {
      saved := saved + {reg};
      savedRegs[reg] := regs[reg];
    }

    method All() returns (values: seq<nat>)
      requires Valid()
      ensures |values| == regs.Length && forall r :: 0 <= r < |values| ==> values[r] == Get(r)
    {
      values := [];
      while |values| < regs.Length
        invariant |values| <= regs.Length && forall r :: 0 <= r < |values| ==> values[r] == Get(r)
      {
        values := values + [Get(|values|)];
      }
    }
  }

  /** Where an architecture keeps its pc and sp, whether it has the pseudo register that says the return address is
      signed, and how a signed address is stripped. */
  datatype Arch = Arch(pcIndex: nat, spIndex: nat, signState: bool, strip: nat -> nat)

  /** The rules of a frame: those of the row, the return address register, and whether it is a signal frame. */
  datatype Frame = Frame(rules: Rules, ra: nat, signalFrame: bool)

  // What each rule gives on the entry registers, env.regs.

  function ExpressionValue(env: D.Env, length: nat, end: nat): Option<(nat, bool)>
    requires env.Proper()
  {
    D.Value(env, (end - length) % W64, end)
  }

  function Cfa(env: D.Env, rules: Rules): Option<nat>
    requires env.Proper()
  {
    if CFA_REG !in rules then None
    else match rules[CFA_REG]
      case Register(reg, offset) => if reg >= |env.regs| then None else Some((env.regs[reg] + offset) % env.Word())
      case ValExpression(length, end) =>
        var v := ExpressionValue(env, length, end);
        if v.None? then None else Some(v.value.0)
      case _ => None
  }

  datatype RegValue = Bad | Kept | New(value: nat, dexPc: bool)

  function FromMemory(env: D.Env, addr: nat): RegValue {
    var v := D.ReadLittleEndian(env.ram, addr, env.width);
    if v.None? then Bad else New(v.value, false)
  }

  function RuleValue(env: D.Env, cfa: nat, loc: Location): RegValue
    requires env.Proper()
  {
    match loc
    case Offset(offset) => FromMemory(env, (cfa + offset) % W64)
    case ValOffset(offset) => New((cfa + offset) % env.Word(), false)
    case Register(reg, offset) =>
      var source := reg % 0x1_0000_0000;
      if source >= |env.regs| then Bad else New((env.regs[source] + offset) % env.Word(), false)
    case Expression(length, end) =>
      var v := ExpressionValue(env, length, end);
      if v.None? then Bad else FromMemory(env, v.value.0)
    case ValExpression(length, end) =>
      var v := ExpressionValue(env, length, end);
      if v.None? then Bad else New(v.value.0, v.value.1)
    case Undefined => Kept
    case PseudoRegister(_) => Bad
  }

  /** A pseudo register can be set only where there is one, and only the one there is; its number is cut to 16 bits. */
  predicate SetsSignState(arch: Arch, reg: nat) {
    arch.signState && reg % 0x1_0000 == RA_SIGN_STATE
  }

  predicate RuleHolds(env: D.Env, arch: Arch, cfa: nat, reg: nat, loc: Location)
    requires env.Proper()
  {
    if reg == CFA_REG then true
    else if reg >= |env.regs| then loc.PseudoRegister? ==> SetsSignState(arch, reg)
    else RuleValue(env, cfa, loc) != Bad
  }

  /** When a frame can be evaluated: a condition on each rule alone. */
  ghost predicate CanEvaluate(env: D.Env, arch: Arch, f: Frame)
    requires env.Proper()
  {
    && f.ra < |env.regs| && Cfa(env, f.rules).Some?
    && forall reg :: reg in f.rules ==> RuleHolds(env, arch, Cfa(env, f.rules).value, reg, f.rules[reg])
  }

  function NewValue(env: D.Env, cfa: nat, rules: Rules, reg: nat): nat
    requires env.Proper() && reg < |env.regs|
  {
    if reg !in rules || reg == CFA_REG then env.regs[reg]
    else
      var v := RuleValue(env, cfa, rules[reg]);
      if v.New? then v.value else env.regs[reg]
  }

  // What depends on the order, if more than one rule sets it: the dex pc and the sign state.

  function DexPcOf(env: D.Env, cfa: nat, rules: Rules, order: seq<nat>): nat
    requires env.Proper() && forall reg :: reg in order ==> reg in rules
    decreases |order|
  {
    if order == [] then 0
    else
      var last := order[|order| - 1];
      if SetsDexPc(env, cfa, rules, last) then RuleValue(env, cfa, rules[last]).value
      else DexPcOf(env, cfa, rules, order[..|order| - 1])
  }

  predicate SetsDexPc(env: D.Env, cfa: nat, rules: Rules, reg: nat)
    requires env.Proper() && reg in rules
  {
    reg != CFA_REG && reg < |env.regs| && RuleValue(env, cfa, rules[reg]).New? && RuleValue(env, cfa, rules[reg]).dexPc
  }

  function SignStateOf(env: D.Env, rules: Rules, order: seq<nat>): nat
    requires forall reg :: reg in order ==> reg in rules
    decreases |order|
  {
    if order == [] then 0
    else
      var last := order[|order| - 1];
      if SetsPseudo(env, rules, last) then rules[last].value else SignStateOf(env, rules, order[..|order| - 1])
  }

  predicate SetsPseudo(env: D.Env, rules: Rules, reg: nat)
    requires reg in rules
  {
    reg != CFA_REG && reg >= |env.regs| && rules[reg].PseudoRegister?
  }

  /** The order in which the rules come: each once. */
  ghost predicate IsOrder(order: seq<nat>, rules: Rules) {
    && (forall reg :: reg in order <==> reg in rules)
    && forall i, j :: 0 <= i < j < |order| ==> order[i] != order[j]
  }

  /** With at most one rule for it, the order does not matter to the dex pc. */
  lemma {:induction false} DexPcIsUnique(env: D.Env, cfa: nat, rules: Rules, order: seq<nat>, reg: nat)
    requires env.Proper() && forall r :: r in order ==> r in rules
    requires reg in order && SetsDexPc(env, cfa, rules, reg)
    requires forall r :: r in order && SetsDexPc(env, cfa, rules, r) ==> r == reg
    ensures DexPcOf(env, cfa, rules, order) == RuleValue(env, cfa, rules[reg]).value
    decreases |order|
  {
    hide RuleValue;
    var last := order[|order| - 1];
    if last != reg {
      assert order[..|order| - 1] + [last] == order;
      DexPcIsUnique(env, cfa, rules, order[..|order| - 1], reg);
    }
  }

  lemma {:induction false} NoDexPc(env: D.Env, cfa: nat, rules: Rules, order: seq<nat>)
    requires env.Proper() && forall r :: r in order ==> r in rules && !SetsDexPc(env, cfa, rules, r)
    ensures DexPcOf(env, cfa, rules, order) == 0
    decreases |order|
  {
    hide RuleValue, SetsDexPc;
    if order != [] {
      assert order[|order| - 1] in order;
      NoDexPc(env, cfa, rules, order[..|order| - 1]);
    }
  }

  lemma {:induction false} SignStateIsUnique(env: D.Env, rules: Rules, order: seq<nat>, reg: nat)
    requires forall r :: r in order ==> r in rules
    requires reg in order && SetsPseudo(env, rules, reg) && forall r :: r in order && SetsPseudo(env, rules, r) ==> r == reg
    ensures SignStateOf(env, rules, order) == rules[reg].value
    decreases |order|
  {
    var last := order[|order| - 1];
    if last != reg {
      assert order[..|order| - 1] + [last] == order;
      SignStateIsUnique(env, rules, order[..|order| - 1], reg);
    }
  }

  lemma {:induction false} NoSignState(env: D.Env, rules: Rules, order: seq<nat>)
    requires forall r :: r in order ==> r in rules && !SetsPseudo(env, rules, r)
    ensures SignStateOf(env, rules, order) == 0
    decreases |order|
  {
    if order != [] {
      assert order[|order| - 1] in order;
      NoSignState(env, rules, order[..|order| - 1]);
    }
  }

  /** At most one rule sets the dex pc, and at most one the sign state. */
  ghost predicate OneOfEach(env: D.Env, cfa: nat, rules: Rules)
    requires env.Proper()
  {
    && (forall r, t :: r in rules && t in rules && SetsDexPc(env, cfa, rules, r) && SetsDexPc(env, cfa, rules, t) ==> r == t)
    && forall r, t :: r in rules && t in rules && SetsPseudo(env, rules, r) && SetsPseudo(env, rules, t) ==> r == t
  }

  /** Two iteration orders give the same dex pc and sign state. */
  lemma OrderDoesNotMatter(env: D.Env, cfa: nat, rules: Rules, order: seq<nat>, order': seq<nat>)
    requires env.Proper() && IsOrder(order, rules) && IsOrder(order', rules) && OneOfEach(env, cfa, rules)
    ensures DexPcOf(env, cfa, rules, order) == DexPcOf(env, cfa, rules, order')
    ensures SignStateOf(env, rules, order) == SignStateOf(env, rules, order')
  {
    hide RuleValue, SetsDexPc, SetsPseudo, DexPcOf, SignStateOf;
    if reg :| reg in rules && SetsDexPc(env, cfa, rules, reg) {
      DexPcIsUnique(env, cfa, rules, order, reg);
      DexPcIsUnique(env, cfa, rules, order', reg);
    } else {
      NoDexPc(env, cfa, rules, order);
      NoDexPc(env, cfa, rules, order');
    }
    if reg :| reg in rules && SetsPseudo(env, rules, reg) {
      SignStateIsUnique(env, rules, order, reg);
      SignStateIsUnique(env, rules, order', reg);
    } else {
      NoSignState(env, rules, order);
      NoSignState(env, rules, order');
    }
  }

  /** Pseudo registers have rules only under the number of the sign state. */
  ghost predicate PseudoOnlySign(rules: Rules) {
    forall r :: r in rules && rules[r].PseudoRegister? ==> r == RA_SIGN_STATE
  }

  ghost predicate PseudoOnlySignIn(m: Machine) {
    PseudoOnlySign(m.row.rules) && forall i :: 0 <= i < |m.stack| ==> PseudoOnlySign(m.stack[i].rules)
  }

  lemma ExecKeepsPseudo(c: Context, cie: Option<Rules>, i: Instruction, m: Machine)
    requires CfaRows.Proper(c) && PseudoOnlySignIn(m) && (cie.Some? ==> PseudoOnlySign(cie.value))
    ensures Exec(c, cie, i, m).Some? ==> PseudoOnlySignIn(Exec(c, cie, i, m).value)
  {
    hide Scaled, Negated;
  }

  /** A row has pseudo register rules only for the sign state, if the rules the run starts with have. */
  lemma {:induction false} RunKeepsPseudo(c: Context, cie: Option<Rules>, program: seq<Instruction>, k: nat, m: Machine, pc: nat)
    requires CfaRows.Proper(c) && k <= |program| && PseudoOnlySignIn(m) && (cie.Some? ==> PseudoOnlySign(cie.value))
    ensures Run(c, cie, program, k, m, pc).Found? ==> PseudoOnlySignIn(Run(c, cie, program, k, m, pc).machine)
    decreases |program| - k
  {
    hide Exec, PseudoOnlySignIn;
    if k < |program| {
      ExecKeepsPseudo(c, cie, program[k], m);
      if Exec(c, cie, program[k], m).Some? {
        RunKeepsPseudo(c, cie, program, k + 1, Exec(c, cie, program[k], m).value, pc);
      }
    }
  }

  /** The registers of a thread: the vector, the dex pc, and the sign state of the return address. */
  class Registers {
    const arch: Arch
    const regs: array<nat>
    var dexPc: nat
    var signState: nat

    constructor (arch: Arch, values: seq<nat>)
      requires arch.pcIndex < |values| && arch.spIndex < |values| <= MAX_REGISTERS
      ensures Valid() && regs[..] == values && this.arch == arch && fresh(regs)
    {
      this.arch := arch;
      regs := new nat[|values|](i requires 0 <= i < |values| => values[i]);
      dexPc, signState := 0, 0;
    }

    ghost predicate Valid()
    {
      arch.pcIndex < regs.Length <= MAX_REGISTERS && arch.spIndex < regs.Length
    }

    method SetPseudoRegister(id: nat, value: nat) returns (ok: bool)
      modifies this`signState
      ensures ok == SetsSignState(arch, id)
      ensures signState == if ok then value else old(signState)
    {
      ok := arch.signState && id % 0x1_0000 == RA_SIGN_STATE;
      if ok {
        signState := value;
      }
    }

    method SetPc(pc: nat)
      requires Valid()
      modifies regs
      ensures regs[..] == old(regs[..])[arch.pcIndex := Stripped(arch, signState, pc)]
    {
      regs[arch.pcIndex] := if pc != 0 && arch.signState && signState != 0 then arch.strip(pc) else pc;
    }
  }

  function Stripped(arch: Arch, signState: nat, pc: nat): nat {
    if pc != 0 && arch.signState && signState != 0 then arch.strip(pc) else pc
  }

  /** What RegsInfo gives for every register. */
  ghost predicate Gives(info: RegsInfo, entry: seq<nat>)
    reads info, info.regs, info.savedRegs
  {
    info.Valid() && |entry| == info.regs.Length && forall r :: 0 <= r < |entry| ==> info.Get(r) == entry[r]
  }

  method EvalExpression(env: D.Env, info: RegsInfo, length: nat, end: nat, ghost entry: seq<nat>) returns (v: Option<(nat, bool)>)
    requires env.Proper() && Gives(info, entry)
    ensures v == ExpressionValue(env.(regs := entry), length, end)
  {
    var now := info.All();
    assert now == entry;
    var op := new D.DwarfOp(env.(regs := now));
    var ok := op.Eval((end - length) % W64, end);
    if !ok || op.stack == [] || op.isRegister {
      return None;
    }
    v := Some((op.stack[0], op.dexPcSet));
  }

  /** One register, through the pointer that Save gave. Whatever has been overwritten before, the rule is evaluated on the
      entry registers. */
  method EvalRegister(env: D.Env, info: RegsInfo, r: Registers, cfa: nat, reg: nat, loc: Location, ghost entry: seq<nat>) returns (ok: bool)
    requires env.Proper() && Gives(info, entry) && info.regs == r.regs && reg < |entry| && reg in info.saved
    modifies r.regs, r`dexPc
    ensures Gives(info, entry)
    ensures match RuleValue(env.(regs := entry), cfa, loc)
            case Bad => !ok
            case Kept => ok && r.regs[..] == old(r.regs[..]) && r.dexPc == old(r.dexPc)
            case New(v, dexPc) =>
              ok && r.regs[..] == old(r.regs[..])[reg := v] && r.dexPc == if dexPc then v else old(r.dexPc)
  {
    hide D.Value, D.ReadLittleEndian;
    match loc {
      case Offset(offset) =>
        var v := D.ReadLittleEndian(env.ram, (cfa + offset) % W64, env.width);
        if v.None? {
          return false;
        }
        r.regs[reg] := v.value;
      case ValOffset(offset) =>
        r.regs[reg] := (cfa + offset) % env.Word();
      case Register(source, offset) =>
        var curReg := source % 0x1_0000_0000;
        if curReg >= r.regs.Length {
          return false;
        }
        r.regs[reg] := (info.Get(curReg) + offset) % env.Word();
      case Expression(length, end) =>
        var addr := EvalExpression(env, info, length, end, entry);
        if addr.None? {
          return false;
        }
        var v := D.ReadLittleEndian(env.ram, addr.value.0, env.width);
        if v.None? {
          return false;
        }
        r.regs[reg] := v.value;
      case ValExpression(length, end) =>
        var v := EvalExpression(env, info, length, end, entry);
        if v.None? {
          return false;
        }
        r.regs[reg] := v.value.0;
        if v.value.1 {
          r.dexPc := v.value.0;
        }
      case Undefined =>
      case PseudoRegister(_) =>
        return false;
    }
    ok := true;
  }

  /** The registers of the caller, before the pc and sp are set. */
  function NewValues(env: D.Env, cfa: nat, rules: Rules): (r: seq<nat>)
    requires env.Proper()
    ensures |r| == |env.regs|
  {
    seq(|env.regs|, reg requires 0 <= reg < |env.regs| => NewValue(env, cfa, rules, reg))
  }

  /** The pc of the caller: what the return address register has become, or zero if its rule says it is undefined. */
  function NewPc(env: D.Env, arch: Arch, f: Frame, cfa: nat, signState: nat): nat
    requires env.Proper() && f.ra < |env.regs|
  {
    var undefined := f.ra in f.rules && f.ra != CFA_REG && f.rules[f.ra].Undefined?;
    Stripped(arch, signState, if undefined then 0 else NewValue(env, cfa, f.rules, f.ra))
  }

  /** The parallel assignment: what the registers of the caller are, whether it is the last frame, the dex pc and the sign
      state. */
  ghost predicate Evaluated(env: D.Env, arch: Arch, f: Frame, order: seq<nat>, regs: seq<nat>, finished: bool, dexPc: nat, signState: nat)
    requires env.Proper()
  {
    && CanEvaluate(env, arch, f) && (forall reg :: reg in order ==> reg in f.rules) && arch.pcIndex < |env.regs| && arch.spIndex < |env.regs|
    && var cfa := Cfa(env, f.rules).value;
    var pc := NewPc(env, arch, f, cfa, signState);
    && regs == NewValues(env, cfa, f.rules)[arch.pcIndex := pc][arch.spIndex := cfa]
    && (finished <==> pc == 0 && !f.signalFrame)
    && dexPc == DexPcOf(env, cfa, f.rules, order)
    && (arch.signState ==> signState == SignStateOf(env, f.rules, order))
  }

  /** A register and what it holds once the rules in `done` have been evaluated. */
  function Partly(env: D.Env, cfa: nat, rules: Rules, done: seq<nat>, reg: nat): nat
    requires env.Proper() && reg < |env.regs|
  {
    if reg in done then NewValue(env, cfa, rules, reg) else env.regs[reg]
  }

  lemma DexPcStep(env: D.Env, cfa: nat, rules: Rules, order: seq<nat>, i: nat)
    requires env.Proper() && i < |order| && forall reg :: reg in order ==> reg in rules
    ensures DexPcOf(env, cfa, rules, order[..i + 1])
         == if SetsDexPc(env, cfa, rules, order[i]) then RuleValue(env, cfa, rules[order[i]]).value else DexPcOf(env, cfa, rules, order[..i])
  {
    hide SetsDexPc;
    assert order[..i + 1][..i] == order[..i] && order[..i + 1][i] == order[i];
  }

  lemma SignStateStep(env: D.Env, rules: Rules, order: seq<nat>, i: nat)
    requires i < |order| && forall reg :: reg in order ==> reg in rules
    ensures SignStateOf(env, rules, order[..i + 1])
         == if SetsPseudo(env, rules, order[i]) then rules[order[i]].value else SignStateOf(env, rules, order[..i])
  {
    hide SetsPseudo;
    assert order[..i + 1][..i] == order[..i] && order[..i + 1][i] == order[i];
  }

  /** One rule of the loop. */
  method EvalRule(env: D.Env, f: Frame, info: RegsInfo, r: Registers, cfa: nat, reg: nat) returns (ok: bool)
    requires env.Proper() && Gives(info, env.regs) && info.regs == r.regs && reg in f.rules && reg !in info.saved
    modifies r`dexPc, r`signState, r.regs, info`saved, info.savedRegs
    ensures Gives(info, env.regs) && (info.saved == old(info.saved) || info.saved == old(info.saved) + {reg})
    ensures ok <==> RuleHolds(env, r.arch, cfa, reg, f.rules[reg])
    ensures ok ==> forall k :: 0 <= k < |env.regs| ==>
              r.regs[k] == if k == reg then NewValue(env, cfa, f.rules, reg) else old(r.regs[k])
    ensures ok ==> r.dexPc == if SetsDexPc(env, cfa, f.rules, reg) then RuleValue(env, cfa, f.rules[reg]).value else old(r.dexPc)
    ensures ok ==> r.signState == if SetsPseudo(env, f.rules, reg) then f.rules[reg].value else old(r.signState)
  {
    hide RuleValue;
    var loc := f.rules[reg];
    ok := true;
    assert env.(regs := env.regs) == env;
    if reg < r.regs.Length {
      assert info.Get(reg) == env.regs[reg];
    }
    if reg == CFA_REG {
    } else if reg >= r.regs.Length {
      if loc.PseudoRegister? {
        ok := r.SetPseudoRegister(reg, loc.value);
      }
    } else {
      info.Save(reg);
      ok := EvalRegister(env, info, r, cfa, reg, loc, env.regs);
    }
  }

  method EvalCfa(env: D.Env, f: Frame, info: RegsInfo) returns (cfa: Option<nat>)
    requires env.Proper() && Gives(info, env.regs) && info.saved == {}
    ensures cfa == Cfa(env, f.rules)
  {
    hide ExpressionValue;
    assert env.(regs := env.regs) == env;
    if CFA_REG !in f.rules {
      return None;
    }
    match f.rules[CFA_REG] {
      case Register(reg, offset) =>
        if reg >= info.regs.Length {
          return None;
        }
        assert info.Get(reg) == env.regs[reg];
        cfa := Some((info.regs[reg] + offset) % env.Word());
      case ValExpression(length, end) =>
        var v := EvalExpression(env, info, length, end, env.regs);
        cfa := if v.None? then None else Some(v.value.0);
      case _ =>
        cfa := None;
    }
  }

  /** All the rules, in the order they come. */
  method EvalRules(env: D.Env, f: Frame, order: seq<nat>, info: RegsInfo, r: Registers, cfa: nat) returns (ok: bool, undefined: bool)
    requires env.Proper() && Gives(info, env.regs) && info.regs == r.regs && info.saved == {} && IsOrder(order, f.rules)
    requires env.regs == r.regs[..] && r.dexPc == 0 && (r.arch.signState ==> r.signState == 0)
    modifies r`dexPc, r`signState, r.regs, info`saved, info.savedRegs
    ensures ok <==> forall reg :: reg in f.rules ==> RuleHolds(env, r.arch, cfa, reg, f.rules[reg])
    ensures ok ==> forall reg :: 0 <= reg < |env.regs| ==> r.regs[reg] == NewValue(env, cfa, f.rules, reg)
    ensures ok ==> (undefined <==> f.ra in f.rules && f.ra != CFA_REG && f.ra < |env.regs| && f.rules[f.ra].Undefined?)
    ensures ok ==> r.dexPc == DexPcOf(env, cfa, f.rules, order)
    ensures ok && r.arch.signState ==> r.signState == SignStateOf(env, f.rules, order)
  {
    hide RuleValue, SetsDexPc, SetsPseudo, RuleHolds;
    ok, undefined := true, false;
    var i := 0;
    while i < |order|
      invariant i <= |order| && Gives(info, env.regs)
      invariant forall reg :: reg in info.saved ==> reg in order[..i]
      invariant forall reg :: reg in order[..i] ==> RuleHolds(env, r.arch, cfa, reg, f.rules[reg])
      invariant forall reg :: 0 <= reg < |env.regs| ==> r.regs[reg] == Partly(env, cfa, f.rules, order[..i], reg)
      invariant undefined <==> f.ra in order[..i] && f.ra != CFA_REG && f.ra < |env.regs| && f.rules[f.ra].Undefined?
      invariant r.dexPc == DexPcOf(env, cfa, f.rules, order[..i])
      invariant r.arch.signState ==> r.signState == SignStateOf(env, f.rules, order[..i])
    {
      hide NewValue, DexPcOf, SignStateOf;
      var reg: nat := order[i];
      assert order[..i + 1] == order[..i] + [reg];
      ok := EvalRule(env, f, info, r, cfa, reg);
      if !ok {
        return;
      }
      if reg < r.regs.Length && reg != CFA_REG && f.rules[reg].Undefined? && reg == f.ra {
        undefined := true;
      }
      DexPcStep(env, cfa, f.rules, order, i);
      SignStateStep(env, f.rules, order, i);
      i := i + 1;
    }
    assert order[..|order|] == order;
    ok := true;
  }

  /** Evaluating the rules in any order gives the parallel assignment, and succeeds or fails whatever the order. */
  method Eval(env: D.Env, f: Frame, order: seq<nat>, r: Registers) returns (ok: bool, finished: bool)
    requires env.Proper() && r.Valid() && env.regs == r.regs[..] && IsOrder(order, f.rules)
    modifies r, r.regs
    ensures ok <==> CanEvaluate(env, r.arch, f)
    ensures ok ==> Evaluated(env, r.arch, f, order, r.regs[..], finished, r.dexPc, r.signState)
  {
    hide RuleValue, RuleHolds, NewValue, DexPcOf, SignStateOf, Cfa;
    finished := false;
    if f.ra >= r.regs.Length {
      return false, false;
    }
    r.dexPc := 0;
    var _ := r.SetPseudoRegister(RA_SIGN_STATE, 0);
    var info := new RegsInfo(r.regs);
    var found := EvalCfa(env, f, info);
    if found.None? {
      return false, false;
    }
    var cfa := found.value;
    var undefined: bool;
    ok, undefined := EvalRules(env, f, order, info, r, cfa);
    if !ok {
      return;
    }
    assert r.regs[..] == NewValues(env, cfa, f.rules);
    r.SetPc(if undefined then 0 else r.regs[f.ra]);
    finished := r.regs[r.arch.pcIndex] == 0 && !f.signalFrame;
    r.regs[r.arch.spIndex] := cfa;
  }
}
