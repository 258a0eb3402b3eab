/** What evaluating a row gives, in terms of the bytes in memory and the registers of the frame. */
module CallerFrame {
  import opened OrderedMap
  import opened DwarfMemory
  import opened CfaRows
  import D = DwarfExpression
  import E = ExpressionTrees
  import R = RegisterEval

  /** The word is in memory at the address, least significant byte first. */
  ghost predicate Stored(env: D.Env, addr: nat, v: nat) {
    E.Mapped(env.ram, addr, env.width) && E.WordAt(env.ram, addr, env.width) == v
  }

  /** The value of the expression that ends there. */
  ghost predicate Computes(env: D.Env, length: nat, end: nat, v: nat)
    requires env.Proper()
  {
    var r := D.Value(env, (end - length) % W64, end);
    r.Some? && r.value.0 == v
  }

  ghost predicate IsCfa(env: D.Env, rules: Rules, cfa: nat)
    requires env.Proper()
  {
    && CFA_REG in rules
    && match rules[CFA_REG]
       case Register(reg, offset) => reg < |env.regs| && cfa == (env.regs[reg] + offset) % env.Word()
       case ValExpression(length, end) => Computes(env, length, end, cfa)
       case _ => false
  }

  /** A rule gives a register this value. */
  ghost predicate Gives(env: D.Env, cfa: nat, loc: Location, was: nat, v: nat)
    requires env.Proper()
  {
    match loc
    case Offset(offset) => Stored(env, (cfa + offset) % W64, v)
    case ValOffset(offset) => v == (cfa + offset) % env.Word()
    case Register(reg, offset) => reg % 0x1_0000_0000 < |env.regs| && v == (env.regs[reg % 0x1_0000_0000] + offset) % env.Word()
    case Expression(length, end) => exists addr :: Computes(env, length, end, addr) && Stored(env, addr, v)
    case ValExpression(length, end) => Computes(env, length, end, v)
    case Undefined => v == was
    case PseudoRegister(_) => false
  }

  lemma CfaIs(env: D.Env, rules: Rules, cfa: nat)
    requires env.Proper()
    ensures R.Cfa(env, rules) == Some(cfa) <==> IsCfa(env, rules, cfa)
  {
    hide D.Value;
  }

  lemma RuleGives(env: D.Env, cfa: nat, loc: Location, was: nat, v: nat)
    requires env.Proper()
    ensures Gives(env, cfa, loc, was, v) <==>
              match R.RuleValue(env, cfa, loc)
              case New(w, _) => v == w
              case Kept => v == was
              case Bad => false
  {
    hide D.Value, E.WordAt, E.Mapped, D.ReadLittleEndian;
    match loc
    case Offset(offset) => E.SameMemory(env.ram, (cfa + offset) % W64, env.width);
    case Expression(length, end) =>
      var addr := D.Value(env, (end - length) % W64, end);
      if addr.Some? {
        assert Computes(env, length, end, addr.value.0);
        E.SameMemory(env.ram, addr.value.0, env.width);
      }
    case _ =>
  }

  /** A rule holds if it gives its register some value; beyond the registers there is only the sign state. */
  ghost predicate Holds(env: D.Env, arch: R.Arch, cfa: nat, reg: nat, loc: Location)
    requires env.Proper()
  {
    if reg < |env.regs| then exists v :: Gives(env, cfa, loc, env.regs[reg], v)
    else loc.PseudoRegister? ==> arch.signState && reg % 0x1_0000 == RA_SIGN_STATE
  }

  /** A frame can be evaluated if and only if there is a CFA and every rule but that of the CFA holds. */
  lemma CanEvaluateIff(env: D.Env, arch: R.Arch, f: R.Frame)
    requires env.Proper()
    ensures R.CanEvaluate(env, arch, f) <==>
              f.ra < |env.regs|
              && exists cfa :: IsCfa(env, f.rules, cfa) && forall reg :: reg in f.rules && reg != CFA_REG ==> Holds(env, arch, cfa, reg, f.rules[reg])
  {
    hide IsCfa, Gives, R.RuleValue, R.Cfa;
    var found := R.Cfa(env, f.rules);
    if found.Some? {
      CfaIs(env, f.rules, found.value);
    }
    forall cfa: nat | IsCfa(env, f.rules, cfa)
      ensures found == Some(cfa)
    {
      CfaIs(env, f.rules, cfa);
    }
    forall cfa: nat, reg | reg in f.rules && reg != CFA_REG
      ensures R.RuleHolds(env, arch, cfa, reg, f.rules[reg]) <==> Holds(env, arch, cfa, reg, f.rules[reg])
    {
      HoldsIff(env, arch, cfa, reg, f.rules[reg]);
    }
  }

  lemma HoldsIff(env: D.Env, arch: R.Arch, cfa: nat, reg: nat, loc: Location)
    requires env.Proper() && reg != CFA_REG
    ensures R.RuleHolds(env, arch, cfa, reg, loc) <==> Holds(env, arch, cfa, reg, loc)
  {
    hide Gives, R.RuleValue;
    if reg < |env.regs| {
      var was, r := env.regs[reg], R.RuleValue(env, cfa, loc);
      if r != R.Bad {
        RuleGives(env, cfa, loc, was, if r.New? then r.value else was);
      }
      if v :| Gives(env, cfa, loc, was, v) {
        RuleGives(env, cfa, loc, was, v);
      }
    }
  }

  /** What the caller's return address is stripped to. */
  ghost predicate IsPc(arch: R.Arch, signState: nat, address: nat, pc: nat) {
    if address == 0 || !arch.signState || signState == 0 then pc == address else pc == arch.strip(address)
  }

  /** The registers of the caller: the stack pointer is the CFA, the pc is the return address, and every other register is
      what its rule gives, or what it was if it has none. */
  ghost predicate IsCaller(env: D.Env, arch: R.Arch, f: R.Frame, regs: seq<nat>, finished: bool, signState: nat)
    requires env.Proper()
  {
    && |regs| == |env.regs| && arch.pcIndex < |regs| && arch.spIndex < |regs| && f.ra < |regs|
    && IsCfa(env, f.rules, regs[arch.spIndex])
    && var cfa := regs[arch.spIndex];
    && (forall reg :: 0 <= reg < |regs| && reg != arch.pcIndex && reg != arch.spIndex ==> IsRegister(env, f.rules, cfa, reg, regs[reg]))
    && (arch.pcIndex != arch.spIndex ==>
          && (exists address :: IsReturn(env, f, cfa, address) && IsPc(arch, signState, address, regs[arch.pcIndex]))
          && (finished <==> regs[arch.pcIndex] == 0 && !f.signalFrame))
  }

  /** The return address, before it is stripped: none if its rule is that it is undefined. */
  ghost predicate IsReturn(env: D.Env, f: R.Frame, cfa: nat, address: nat)
    requires env.Proper() && f.ra < |env.regs|
  {
    if f.ra in f.rules && f.rules[f.ra].Undefined? then address == 0 else IsRegister(env, f.rules, cfa, f.ra, address)
  }

  ghost predicate IsRegister(env: D.Env, rules: Rules, cfa: nat, reg: nat, v: nat)
    requires env.Proper() && reg < |env.regs|
  {
    if reg in rules then Gives(env, cfa, rules[reg], env.regs[reg], v) else v == env.regs[reg]
  }

  lemma NewValueIs(env: D.Env, arch: R.Arch, f: R.Frame, cfa: nat, reg: nat)
    requires env.Proper() && reg < |env.regs| && reg != CFA_REG && R.CanEvaluate(env, arch, f) && R.Cfa(env, f.rules) == Some(cfa)
    ensures IsRegister(env, f.rules, cfa, reg, R.NewValue(env, cfa, f.rules, reg))
  {
    hide Gives, R.RuleValue, R.Cfa;
    if reg in f.rules {
      assert R.RuleHolds(env, arch, cfa, reg, f.rules[reg]);
      RuleGives(env, cfa, f.rules[reg], env.regs[reg], R.NewValue(env, cfa, f.rules, reg));
    }
  }

  /** The result of a step is the caller. */
  lemma EvaluatedIsCaller(env: D.Env, arch: R.Arch, f: R.Frame, order: seq<nat>, regs: seq<nat>, finished: bool, dexPc: nat, signState: nat)
    requires env.Proper() && |env.regs| <= CFA_REG && R.Evaluated(env, arch, f, order, regs, finished, dexPc, signState)
    ensures IsCaller(env, arch, f, regs, finished, signState)
  {
    var cfa := R.Cfa(env, f.rules).value;
    hide Gives, R.CanEvaluate, R.Cfa, R.RuleValue, R.NewValue, R.DexPcOf, R.SignStateOf, IsCfa;
    CfaIs(env, f.rules, cfa);
    forall reg | 0 <= reg < |regs| && reg != arch.pcIndex && reg != arch.spIndex
      ensures IsRegister(env, f.rules, cfa, reg, regs[reg])
    {
      NewValueIs(env, arch, f, cfa, reg);
    }
    NewValueIs(env, arch, f, cfa, f.ra);
    hide IsRegister;
    var address := if f.ra in f.rules && f.rules[f.ra].Undefined? then 0 else R.NewValue(env, cfa, f.rules, f.ra);
    assert IsReturn(env, f, cfa, address);
    assert R.Stripped(arch, signState, address) == R.NewPc(env, arch, f, cfa, signState);
    assert IsPc(arch, signState, address, R.NewPc(env, arch, f, cfa, signState));
  }

  // The frame of a function that has saved registers of its caller.

  /** Each register is in memory at its offset from the CFA, or has not been changed. */
  ghost predicate Saves(env: D.Env, f: R.Frame, cfa: nat, saved: seq<nat>)
    requires env.Proper()
  {
    |saved| == |env.regs| && forall reg :: 0 <= reg < |saved| ==> SavesOne(env, f.rules, cfa, reg, saved[reg])
  }

  ghost predicate SavesOne(env: D.Env, rules: Rules, cfa: nat, reg: nat, v: nat)
    requires env.Proper() && reg < |env.regs|
  {
    if reg in rules then rules[reg].Offset? && Stored(env, (cfa + rules[reg].offset) % W64, v) else v == env.regs[reg]
  }

  /** A step restores exactly the saved registers, with the return address as the pc and the CFA as the stack pointer. */
  lemma FrameIsRestored(env: D.Env, arch: R.Arch, f: R.Frame, cfa: nat, saved: seq<nat>,
                        order: seq<nat>, regs: seq<nat>, finished: bool, dexPc: nat, signState: nat)
    requires env.Proper() && |env.regs| <= CFA_REG && f.ra < |env.regs| && arch.pcIndex != arch.spIndex
    requires IsCfa(env, f.rules, cfa) && Saves(env, f, cfa, saved)
    requires forall reg :: reg in f.rules && reg >= |env.regs| ==> !f.rules[reg].PseudoRegister?
    ensures R.CanEvaluate(env, arch, f)
    ensures R.Evaluated(env, arch, f, order, regs, finished, dexPc, signState) && (arch.signState ==> signState == 0) ==>
              regs == saved[arch.pcIndex := saved[f.ra]][arch.spIndex := cfa] && (finished <==> saved[f.ra] == 0 && !f.signalFrame)
  {
    hide R.CanEvaluate, R.Evaluated, Stored, IsCfa;
    forall reg | reg in f.rules && reg != CFA_REG
      ensures Holds(env, arch, cfa, reg, f.rules[reg])
    {
      if reg < |env.regs| {
        assert SavesOne(env, f.rules, cfa, reg, saved[reg]);
        assert Gives(env, cfa, f.rules[reg], env.regs[reg], saved[reg]);
      }
    }
    CanEvaluateIff(env, arch, f);
    if R.Evaluated(env, arch, f, order, regs, finished, dexPc, signState) && (arch.signState ==> signState == 0) {
      EvaluatedIsCaller(env, arch, f, order, regs, finished, dexPc, signState);
      OneCfa(env, f.rules, cfa, regs[arch.spIndex]);
      RestoredIs(env, arch, f, cfa, saved, regs, finished, signState);
    }
  }

  lemma OneCfa(env: D.Env, rules: Rules, cfa: nat, cfa': nat)
    requires env.Proper() && IsCfa(env, rules, cfa) && IsCfa(env, rules, cfa')
    ensures cfa == cfa'
  {
    CfaIs(env, rules, cfa);
    CfaIs(env, rules, cfa');
  }

  lemma OneValue(env: D.Env, rules: Rules, cfa: nat, reg: nat, v: nat, w: nat)
    requires env.Proper() && reg < |env.regs| && SavesOne(env, rules, cfa, reg, v) && IsRegister(env, rules, cfa, reg, w)
    ensures v == w
  {
  }

  lemma RestoredIs(env: D.Env, arch: R.Arch, f: R.Frame, cfa: nat, saved: seq<nat>, regs: seq<nat>, finished: bool, signState: nat)
    requires env.Proper() && IsCaller(env, arch, f, regs, finished, signState) && regs[arch.spIndex] == cfa
    requires Saves(env, f, cfa, saved) && arch.pcIndex != arch.spIndex && (arch.signState ==> signState == 0)
    ensures regs == saved[arch.pcIndex := saved[f.ra]][arch.spIndex := cfa] && (finished <==> saved[f.ra] == 0 && !f.signalFrame)
  {
    hide SavesOne, IsRegister, IsCfa;
    forall reg | 0 <= reg < |regs| && reg != arch.pcIndex && reg != arch.spIndex
      ensures regs[reg] == saved[reg]
    {
      OneValue(env, f.rules, cfa, reg, saved[reg], regs[reg]);
    }
    var address :| IsReturn(env, f, cfa, address) && IsPc(arch, signState, address, regs[arch.pcIndex]);
    assert SavesOne(env, f.rules, cfa, f.ra, saved[f.ra]);
    NotUndefined(env, f, cfa, saved[f.ra], address);
    OneValue(env, f.rules, cfa, f.ra, saved[f.ra], address);
  }

  lemma NotUndefined(env: D.Env, f: R.Frame, cfa: nat, v: nat, address: nat)
    requires env.Proper() && f.ra < |env.regs| && SavesOne(env, f.rules, cfa, f.ra, v) && IsReturn(env, f, cfa, address)
    ensures IsRegister(env, f.rules, cfa, f.ra, address)
  {
  }

  /** The rules of the rows of this machine set the sign state under its own number only; then it is what that rule says, and
      clear if there is none. */
  lemma SignStateIs(env: D.Env, arch: R.Arch, f: R.Frame, order: seq<nat>, regs: seq<nat>, finished: bool, dexPc: nat, signState: nat)
    requires env.Proper() && |env.regs| <= RA_SIGN_STATE && arch.signState && R.IsOrder(order, f.rules) && R.PseudoOnlySign(f.rules)
    requires R.Evaluated(env, arch, f, order, regs, finished, dexPc, signState)
    ensures signState == if RA_SIGN_STATE in f.rules && f.rules[RA_SIGN_STATE].PseudoRegister? then f.rules[RA_SIGN_STATE].value else 0
  {
    hide R.CanEvaluate, R.NewValues, R.NewPc, R.DexPcOf, R.SignStateOf;
    if RA_SIGN_STATE in f.rules && f.rules[RA_SIGN_STATE].PseudoRegister? {
      R.SignStateIsUnique(env, f.rules, order, RA_SIGN_STATE);
    } else {
      R.NoSignState(env, f.rules, order);
    }
  }

  /** The expression of a register computes a value that is marked as a dex pc. */
  ghost predicate MarksDexPc(env: D.Env, rules: Rules, reg: nat)
    requires env.Proper()
  {
    && reg in rules && reg < |env.regs| && reg != CFA_REG && rules[reg].ValExpression?
    && var r := D.Value(env, (rules[reg].end - rules[reg].length) % W64, rules[reg].end);
    r.Some? && r.value.1
  }

  ghost predicate IsDexPc(env: D.Env, loc: Location, v: nat)
    requires env.Proper()
  {
    loc.ValExpression? && Computes(env, loc.length, loc.end, v)
  }

  /** The dex pc is what the one such register is set to, and zero if there is none. */
  lemma DexPcIs(env: D.Env, arch: R.Arch, f: R.Frame, order: seq<nat>, regs: seq<nat>, finished: bool, dexPc: nat, signState: nat)
    requires env.Proper() && R.IsOrder(order, f.rules) && R.Evaluated(env, arch, f, order, regs, finished, dexPc, signState)
    requires forall r, t :: MarksDexPc(env, f.rules, r) && MarksDexPc(env, f.rules, t) ==> r == t
    ensures forall reg: nat :: MarksDexPc(env, f.rules, reg) ==> reg in f.rules && IsDexPc(env, f.rules[reg], dexPc)
    ensures (forall reg: nat :: !MarksDexPc(env, f.rules, reg)) ==> dexPc == 0
  {
    var cfa := R.Cfa(env, f.rules).value;
    hide R.CanEvaluate, R.NewValues, R.NewPc, R.DexPcOf, R.SetsDexPc, R.RuleValue, MarksDexPc;
    assert dexPc == R.DexPcOf(env, cfa, f.rules, order);
    hide R.Evaluated;
    forall reg | reg in f.rules
      ensures R.SetsDexPc(env, cfa, f.rules, reg) <==> MarksDexPc(env, f.rules, reg)
    {
      MarksIffSets(env, cfa, f.rules, reg);
    }
    if reg: nat :| MarksDexPc(env, f.rules, reg) {
      MarksIffSets(env, cfa, f.rules, reg);
      R.DexPcIsUnique(env, cfa, f.rules, order, reg);
    } else {
      R.NoDexPc(env, cfa, f.rules, order);
    }
  }

  lemma MarksIffSets(env: D.Env, cfa: nat, rules: Rules, reg: nat)
    requires env.Proper()
    ensures MarksDexPc(env, rules, reg) ==> reg in rules && R.SetsDexPc(env, cfa, rules, reg) && R.RuleValue(env, cfa, rules[reg]).New?
    ensures MarksDexPc(env, rules, reg) ==> IsDexPc(env, rules[reg], R.RuleValue(env, cfa, rules[reg]).value)
    ensures reg in rules && R.SetsDexPc(env, cfa, rules, reg) ==> MarksDexPc(env, rules, reg)
  {
    hide D.Value, D.ReadLittleEndian;
  }
}
