/** What the instructions of call frame programs mean (section 6.4.2 of DWARF 4), over what a lookup returns. */
module CfaMeaning {
  import opened OrderedMap
  import opened CfaRows

  /** The number as a signed word of the machine, extended to 64 bits. */
  ghost predicate IsSigned(c: Context, v: nat, x: int)
    requires Proper(c)
  {
    v < DOUBLE_WORD && v % c.word == x % c.word && (v < c.word / 2 || v >= DOUBLE_WORD - c.word / 2)
  }

  ghost predicate HasOffset(rules: Rules, reg: nat, c: Context, x: int)
    requires Proper(c)
  {
    reg in rules && rules[reg].Offset? && IsSigned(c, rules[reg].offset, x)
  }

  ghost predicate HasRule(rules: Rules, reg: nat, l: Location) {
    reg in rules && rules[reg] == l
  }

  /** The CFA is a register and an offset. */
  ghost predicate HasCfa(rules: Rules, reg: nat, c: Context, x: int)
    requires Proper(c)
  {
    CFA_REG in rules && rules[CFA_REG].Register? && rules[CFA_REG].reg == reg && IsSigned(c, rules[CFA_REG].offset, x)
  }

  /** What the register that an instruction is about has in `after`, if the instruction was given `before`. */
  ghost predicate Leaves(c: Context, cie: Option<Rules>, i: Instruction, before: Rules, after: Rules)
    requires Proper(c)
  {
    match i
    case OffsetRule(reg, n) => HasOffset(after, reg, c, n * c.dataAlign)
    case OffsetExtended(reg, n) => HasRule(after, reg, Offset(n))
    case OffsetExtendedSf(reg, n) => HasOffset(after, reg, c, n * c.dataAlign)
    case GnuNegativeOffset(reg, n) => HasOffset(after, reg, c, 0 - n)
    case ValOffsetRule(reg, n) => reg in after && after[reg].ValOffset? && IsSigned(c, after[reg].offset, n * c.dataAlign)
    case Restore(reg) => cie.Some? && (if reg in cie.value then HasRule(after, reg, cie.value[reg]) else reg !in after)
    case UndefinedRule(reg) => HasRule(after, reg, Undefined)
    case SameValue(reg) => reg !in after
    case RegisterRule(reg, source) => HasRule(after, reg, Register(source, 0))
    case ExpressionRule(reg, length, end) => HasRule(after, reg, Expression(length, end))
    case ValExpressionRule(reg, length, end) => HasRule(after, reg, ValExpression(length, end))
    case DefCfa(reg, n) => HasRule(after, CFA_REG, Register(reg, n))
    case DefCfaSf(reg, n) => HasCfa(after, reg, c, n * c.dataAlign)
    case DefCfaRegister(reg) => CfaIsRegister(before) && HasRule(after, CFA_REG, Register(reg, before[CFA_REG].offset))
    case DefCfaOffset(n) => CfaIsRegister(before) && HasRule(after, CFA_REG, Register(before[CFA_REG].reg, n))
    case DefCfaOffsetSf(n) => CfaIsRegister(before) && HasCfa(after, before[CFA_REG].reg, c, n * c.dataAlign)
    case DefCfaExpression(length, end) => HasRule(after, CFA_REG, ValExpression(length, end))
    case NegateRaState =>
      c.arm64 && (RA_SIGN_STATE !in before ==> HasRule(after, RA_SIGN_STATE, PseudoRegister(1)))
      && (HasRule(before, RA_SIGN_STATE, PseudoRegister(0)) ==> HasRule(after, RA_SIGN_STATE, PseudoRegister(1)))
      && (HasRule(before, RA_SIGN_STATE, PseudoRegister(1)) ==> HasRule(after, RA_SIGN_STATE, PseudoRegister(0)))
    case Illegal => false
    case _ => true
  }

  /** The instructions that cannot be carried out. */
  ghost predicate Refused(c: Context, cie: Option<Rules>, i: Instruction, before: Rules) {
    match i
    case Restore(_) => cie.None?
    case DefCfaRegister(_) => !CfaIsRegister(before)
    case DefCfaOffset(_) => !CfaIsRegister(before)
    case DefCfaOffsetSf(_) => !CfaIsRegister(before)
    case NegateRaState => !c.arm64
    case Illegal => true
    case _ => false
  }

  lemma ExtendedIs(c: Context, x: int)
    requires Proper(c)
    ensures IsSigned(c, Signed(x, c.word) % DOUBLE_WORD, x)
  {
    if c.word == DOUBLE_WORD {
      assert Signed(x, DOUBLE_WORD) % DOUBLE_WORD == x % DOUBLE_WORD;
    } else {
      SignedShort(x);
    }
  }

  lemma SignedShort(x: int)
    ensures var v := Signed(x, 0x1_0000_0000) % DOUBLE_WORD;
            v % 0x1_0000_0000 == x % 0x1_0000_0000 && (v < 0x8000_0000 || v >= DOUBLE_WORD - 0x8000_0000)
  {
    var r := x % 0x1_0000_0000;
    if r >= 0x8000_0000 {
      assert (r - 0x1_0000_0000) % DOUBLE_WORD == DOUBLE_WORD + r - 0x1_0000_0000;
    }
  }

  lemma SameWord(c: Context, v: nat, x: int, y: int)
    requires Proper(c) && IsSigned(c, v, x) && x % c.word == y % c.word
    ensures IsSigned(c, v, y)
  {
  }

  lemma ScaledMeans(c: Context, n: nat)
    requires Proper(c)
    ensures IsSigned(c, Scaled(c, n), n * c.dataAlign)
  {
    hide IsSigned;
    ExtendedIs(c, Signed(n, c.word) * c.dataAlign);
    AnyProduct(n, c.dataAlign, c.word);
    hide Signed;
    SameWord(c, Scaled(c, n), Signed(n, c.word) * c.dataAlign, n * c.dataAlign);
  }

  lemma AnyProduct(n: nat, a: int, word: nat)
    requires IsWord(word)
    ensures Signed(n, word) * a % word == n * a % word
  {
    var k := SignedMultiple(n, word);
    hide Signed, IsWord;
    assert Signed(n, word) * a == n * a + word * (k * a) by {
      assert (n + k * word) * a == n * a + word * (k * a);
    }
    MultipleAway(n * a, k * a, word);
  }

  lemma SignedMultiple(n: nat, word: nat) returns (k: int)
    requires IsWord(word)
    ensures Signed(n, word) == n + k * word
  {
    var q := n / word;
    k := if n % word < word / 2 then 0 - q else 0 - q - 1;
    assert (0 - q) * word == 0 - q * word && (0 - q - 1) * word == 0 - q * word - word;
    assert n == q * word + n % word;
  }

  lemma NegatedMeans(c: Context, n: nat)
    requires Proper(c)
    ensures IsSigned(c, Negated(c, n), 0 - n)
  {
    hide IsSigned;
    ExtendedIs(c, -Signed(n, c.word));
    AnyProduct(n, -1, c.word);
    hide Signed;
    assert Signed(n, c.word) * -1 == -Signed(n, c.word) && n * -1 == 0 - n;
    SameWord(c, Negated(c, n), -Signed(n, c.word), 0 - n);
  }

  ghost predicate Factored(i: Instruction) {
    i.OffsetRule? || i.OffsetExtendedSf? || i.GnuNegativeOffset? || i.ValOffsetRule? || i.DefCfaSf? || i.DefCfaOffsetSf?
  }

  lemma FactoredLeaves(c: Context, cie: Option<Rules>, i: Instruction, before: Rules)
    requires Proper(c) && Factored(i)
    ensures Rule(c, cie, i, before).None? <==> Refused(c, cie, i, before)
    ensures Rule(c, cie, i, before).Some? ==> Leaves(c, cie, i, before, Rule(c, cie, i, before).value)
  {
    hide Scaled, Negated, IsSigned, Proper;
    match i
    case OffsetRule(_, n) => ScaledMeans(c, n);
    case OffsetExtendedSf(_, n) => ScaledMeans(c, n);
    case GnuNegativeOffset(_, n) => NegatedMeans(c, n);
    case ValOffsetRule(_, n) => ScaledMeans(c, n);
    case DefCfaSf(_, n) => ScaledMeans(c, n);
    case DefCfaOffsetSf(n) => ScaledMeans(c, n);
  }

  /** One instruction, by what it leaves and when it is refused. */
  lemma RuleLeaves(c: Context, cie: Option<Rules>, i: Instruction, before: Rules)
    requires Proper(c)
    ensures Rule(c, cie, i, before).None? <==> Refused(c, cie, i, before)
    ensures Rule(c, cie, i, before).Some? ==> Leaves(c, cie, i, before, Rule(c, cie, i, before).value)
  {
    if Factored(i) {
      FactoredLeaves(c, cie, i, before);
    } else {
      hide Scaled, Negated, IsSigned, Proper;
    }
  }

  // Over what a lookup returns.

  /** None of the instructions from `from` up to `to` sets the register's rule or restores a remembered state. */
  ghost predicate Spared(program: seq<Instruction>, from: nat, to: nat, reg: nat) {
    forall j :: from <= j < to <= |program| ==> Target(program[j]) != Some(reg) && !program[j].RestoreState?
  }

  ghost predicate SameRule(rules: Rules, rules': Rules, reg: nat) {
    (reg in rules <==> reg in rules') && (reg in rules ==> rules[reg] == rules'[reg])
  }

  lemma ExecSpares(c: Context, cie: Option<Rules>, i: Instruction, m: Machine, reg: nat)
    requires Proper(c) && Exec(c, cie, i, m).Some? && Target(i) != Some(reg) && !i.RestoreState?
    ensures SameRule(m.row.rules, Exec(c, cie, i, m).value.row.rules, reg)
  {
    if Rule(c, cie, i, m.row.rules).Some? {
      RuleTouchesTarget(c, cie, i, m.row.rules, reg);
    }
    hide Rule, Target;
  }

  lemma {:induction false} SparedStays(c: Context, cie: Option<Rules>, program: seq<Instruction>, m: Machine, k: nat, n: nat, reg: nat)
    requires Proper(c) && k <= n <= |program| && After(c, cie, program, n, m).Some? && Spared(program, k, n, reg)
    ensures After(c, cie, program, k, m).Some?
    ensures SameRule(After(c, cie, program, k, m).value.row.rules, After(c, cie, program, n, m).value.row.rules, reg)
    decreases n
  {
    hide Exec, Target;
    if k < n {
      SparedStays(c, cie, program, m, k, n - 1, reg);
      ExecSpares(c, cie, program[n - 1], After(c, cie, program, n - 1, m).value, reg);
    }
  }

  lemma ExecLeaves(c: Context, cie: Option<Rules>, i: Instruction, m: Machine)
    requires Proper(c) && Target(i).Some?
    ensures Exec(c, cie, i, m).None? <==> Refused(c, cie, i, m.row.rules)
    ensures Exec(c, cie, i, m).Some? ==> Leaves(c, cie, i, m.row.rules, Exec(c, cie, i, m).value.row.rules)
  {
    RuleLeaves(c, cie, i, m.row.rules);
    hide Leaves, Refused, Rule;
  }

  lemma SameLeaves(c: Context, cie: Option<Rules>, i: Instruction, before: Rules, after: Rules, after': Rules, reg: nat)
    requires Proper(c) && Target(i) == Some(reg) && Leaves(c, cie, i, before, after) && SameRule(after, after', reg)
    ensures Leaves(c, cie, i, before, after')
  {
    hide IsSigned;
  }

  /** The rule that a lookup returns for a register is what the last instruction about it leaves, however many others have
      been carried out since. */
  lemma LastRuleStands(c: Context, cie: Option<Rules>, program: seq<Instruction>, m: Machine, pc: nat, n: nat, k: nat, reg: nat)
    requires Proper(c) && StopsAt(c, cie, program, m, pc, n) && k < n && Target(program[k]) == Some(reg)
    requires Spared(program, k + 1, n, reg)
    ensures After(c, cie, program, k, m).Some? && Run(c, cie, program, 0, m, pc).Found?
    ensures Leaves(c, cie, program[k], After(c, cie, program, k, m).value.row.rules, Run(c, cie, program, 0, m, pc).machine.row.rules)
  {
    hide Run, Exec, Leaves, Target;
    RunThatStops(c, cie, program, 0, m, pc, n);
    SparedStays(c, cie, program, m, k + 1, n, reg);
    var before, after := After(c, cie, program, k, m).value, After(c, cie, program, k + 1, m).value;
    ExecLeaves(c, cie, program[k], before);
    SameLeaves(c, cie, program[k], before.row.rules, after.row.rules, After(c, cie, program, n, m).value.row.rules, reg);
  }

  /** A register that no instruction is about keeps the rule it had at the start. */
  lemma UntouchedRuleStands(c: Context, cie: Option<Rules>, program: seq<Instruction>, m: Machine, pc: nat, n: nat, reg: nat)
    requires Proper(c) && StopsAt(c, cie, program, m, pc, n) && Spared(program, 0, n, reg)
    ensures Run(c, cie, program, 0, m, pc).Found? && SameRule(m.row.rules, Run(c, cie, program, 0, m, pc).machine.row.rules, reg)
  {
    hide Run, Exec;
    RunThatStops(c, cie, program, 0, m, pc, n);
    SparedStays(c, cie, program, m, 0, n, reg);
  }

  /** After a restore, whatever came before, the rule of the register is that of the CIE, or there is none if the CIE has none. */
  lemma RestoreBringsCieRule(c: Context, cie: Option<Rules>, program: seq<Instruction>, m: Machine, pc: nat, n: nat, k: nat, reg: nat)
    requires Proper(c) && StopsAt(c, cie, program, m, pc, n) && k < n && program[k] == Restore(reg) && Spared(program, k + 1, n, reg)
    ensures cie.Some? && Run(c, cie, program, 0, m, pc).Found?
    ensures SameRule(cie.value, Run(c, cie, program, 0, m, pc).machine.row.rules, reg)
  {
    hide Run;
    LastRuleStands(c, cie, program, m, pc, n, k, reg);
  }

  /** Restoring a state when none is remembered changes neither the rules nor the location. */
  lemma UnmatchedRestore(c: Context, cie: Option<Rules>, program: seq<Instruction>, m: Machine, k: nat)
    requires Proper(c) && k < |program| && program[k].RestoreState?
    requires After(c, cie, program, k, m).Some? && After(c, cie, program, k, m).value.stack == []
    ensures After(c, cie, program, k + 1, m).Some?
    ensures var before, after := After(c, cie, program, k, m).value, After(c, cie, program, k + 1, m).value;
            after.row.rules == before.row.rules && after.pc == before.pc && after.stack == []
  {
  }

  // When a lookup fails.

  /** The lookup gets to the nth instruction and cannot carry it out. */
  ghost predicate FailsAt(c: Context, cie: Option<Rules>, program: seq<Instruction>, m: Machine, pc: nat, n: nat)
    requires Proper(c)
  {
    && n < |program| && (forall j :: 0 <= j <= n ==> GoesOn(c, cie, program, m, pc, j)) && After(c, cie, program, n, m).Some?
    && Refused(c, cie, program[n], After(c, cie, program, n, m).value.row.rules)
  }

  lemma RefusedIff(c: Context, cie: Option<Rules>, i: Instruction, m: Machine)
    requires Proper(c)
    ensures Exec(c, cie, i, m).None? <==> Refused(c, cie, i, m.row.rules)
  {
    RuleLeaves(c, cie, i, m.row.rules);
    hide Rule, Leaves;
  }

  lemma {:induction false} FailsFrom(c: Context, cie: Option<Rules>, program: seq<Instruction>, k: nat, m: Machine, pc: nat)
    returns (n: nat)
    requires Proper(c) && k <= |program| && After(c, cie, program, k, m).Some?
    requires forall j :: 0 <= j < k ==> GoesOn(c, cie, program, m, pc, j)
    requires Run(c, cie, program, k, After(c, cie, program, k, m).value, pc).Failed?
    ensures FailsAt(c, cie, program, m, pc, n)
    decreases |program| - k
  {
    hide Exec, Refused;
    var now := After(c, cie, program, k, m).value;
    RefusedIff(c, cie, program[k], now);
    if Exec(c, cie, program[k], now).None? {
      n := k;
    } else {
      assert After(c, cie, program, k + 1, m) == Exec(c, cie, program[k], now);
      n := FailsFrom(c, cie, program, k + 1, m, pc);
    }
  }

  lemma {:induction false} RunFails(c: Context, cie: Option<Rules>, program: seq<Instruction>, k: nat, m: Machine, pc: nat, n: nat)
    requires Proper(c) && FailsAt(c, cie, program, m, pc, n) && k <= n
    ensures GoesOn(c, cie, program, m, pc, k) && Run(c, cie, program, k, After(c, cie, program, k, m).value, pc).Failed?
    decreases n - k
  {
    hide Exec, Refused;
    assert GoesOn(c, cie, program, m, pc, k);
    if k < n {
      RunFails(c, cie, program, k + 1, m, pc, n);
      assert After(c, cie, program, k + 1, m) == Exec(c, cie, program[k], After(c, cie, program, k, m).value);
    } else {
      RefusedIff(c, cie, program[n], After(c, cie, program, n, m).value);
    }
  }

  /** A lookup fails if and only if it gets to an instruction that cannot be carried out. */
  lemma LookupFailsIff(c: Context, cie: Option<Rules>, program: seq<Instruction>, m: Machine, pc: nat)
    requires Proper(c)
    ensures Run(c, cie, program, 0, m, pc).Failed? <==> exists n: nat :: FailsAt(c, cie, program, m, pc, n)
  {
    hide Run, FailsAt;
    if Run(c, cie, program, 0, m, pc).Failed? {
      var n := FailsFrom(c, cie, program, 0, m, pc);
    }
    forall n: nat | FailsAt(c, cie, program, m, pc, n)
      ensures Run(c, cie, program, 0, m, pc).Failed?
    {
      RunFails(c, cie, program, 0, m, pc, n);
    }
  }

  // The location.

  /** The sum of the deltas of the instructions from `from` up to `to`. */
  function Advanced(program: seq<Instruction>, from: nat, to: nat): nat
    requires from <= to <= |program|
  {
    if from == to then 0
    else Advanced(program, from, to - 1) + if program[to - 1].AdvanceLoc? then program[to - 1].delta else 0
  }

  ghost predicate NeverSet(program: seq<Instruction>, from: nat, to: nat) {
    forall j :: from <= j < to <= |program| ==> !program[j].SetLoc?
  }

  lemma LocationStep(c: Context, cie: Option<Rules>, i: Instruction, m: Machine)
    requires Proper(c) && Exec(c, cie, i, m).Some?
    ensures Exec(c, cie, i, m).value.pc == match i
                                           case AdvanceLoc(delta) => (m.pc + c.codeAlign * delta) % c.word
                                           case SetLoc(pc) => pc % c.word
                                           case _ => m.pc
  {
    hide Rule;
  }

  lemma AddsModulo(x: nat, y: nat, z: nat, word: nat)
    requires IsWord(word)
    ensures ((x + y) % word + z) % word == (x + (y + z)) % word
  {
    var k := (x + y) / word;
    assert (x + y) % word + z == x + (y + z) + word * (0 - k);
    MultipleAway(x + (y + z), 0 - k, word);
  }

  lemma OneMoreDelta(start: nat, factor: nat, sum: nat, delta: nat, word: nat)
    requires IsWord(word)
    ensures ((start + factor * sum) % word + factor * delta) % word == (start + factor * (sum + delta)) % word
  {
    assert factor * (sum + delta) == factor * sum + factor * delta;
    AddsModulo(start, factor * sum, factor * delta, word);
  }

  /** The location moves by the sum of the deltas times the code alignment, modulo the word. */
  lemma {:induction false} LocationAdvances(c: Context, cie: Option<Rules>, program: seq<Instruction>, m: Machine, k: nat, n: nat)
    requires Proper(c) && k <= n <= |program| && After(c, cie, program, n, m).Some? && NeverSet(program, k, n)
    requires After(c, cie, program, k, m).Some? ==> After(c, cie, program, k, m).value.pc < c.word
    ensures After(c, cie, program, k, m).Some?
    ensures After(c, cie, program, n, m).value.pc
         == (After(c, cie, program, k, m).value.pc + c.codeAlign * Advanced(program, k, n)) % c.word
    decreases n
  {
    hide Exec;
    if k < n {
      LocationAdvances(c, cie, program, m, k, n - 1);
      var start, before := After(c, cie, program, k, m).value, After(c, cie, program, n - 1, m).value;
      LocationStep(c, cie, program[n - 1], before);
      if program[n - 1].AdvanceLoc? {
        OneMoreDelta(start.pc, c.codeAlign, Advanced(program, k, n - 1), program[n - 1].delta, c.word);
      }
    } else {
      assert c.codeAlign * Advanced(program, k, n) == 0;
      SmallRemainder(After(c, cie, program, k, m).value.pc, c.word);
    }
  }

  lemma SmallRemainder(x: nat, word: nat)
    requires x < word
    ensures x % word == x
  {
  }

  /** After the last instruction that sets it, the location is what that one says, and the deltas since. */
  lemma LocationSet(c: Context, cie: Option<Rules>, program: seq<Instruction>, m: Machine, k: nat, n: nat)
    requires Proper(c) && k < n <= |program| && After(c, cie, program, n, m).Some? && program[k].SetLoc? && NeverSet(program, k + 1, n)
    ensures After(c, cie, program, n, m).value.pc == (program[k].pc + c.codeAlign * Advanced(program, k + 1, n)) % c.word
  {
    hide Exec;
    AfterBefore(c, cie, program, m, k + 1, n);
    LocationStep(c, cie, program[k], After(c, cie, program, k, m).value);
    LocationAdvances(c, cie, program, m, k + 1, n);
    AddsModulo(program[k].pc, 0, c.codeAlign * Advanced(program, k + 1, n), c.word);
  }

  lemma {:induction false} AfterBefore(c: Context, cie: Option<Rules>, program: seq<Instruction>, m: Machine, k: nat, n: nat)
    requires Proper(c) && k <= n <= |program| && After(c, cie, program, n, m).Some?
    ensures After(c, cie, program, k, m).Some?
    decreases n
  {
    if k < n {
      AfterBefore(c, cie, program, m, k, n - 1);
    }
  }

  /** A lookup starts with the rules of the CIE, and where it has none with those that were there. */
  lemma CieRulesComeFirst(rules: Rules, cie: Rules, reg: nat)
    ensures if reg in cie then SameRule(cie, WithCie(rules, Some(cie)), reg) else SameRule(rules, WithCie(rules, Some(cie)), reg)
    ensures SameRule(rules, WithCie(rules, None), reg)
  {
  }
}
