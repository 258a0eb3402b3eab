/** The row machine of DWARF call frame information (section 6.4 of DWARF 4).

    A program is the sequence of its decoded instructions. The location and operands are words of 32 or 64 bits. */
module CfaRows {

  import opened OrderedMap

  // The register number under which the CFA rule is kept, and the pseudo register of pointer authentication.
  const CFA_REG := 0xffff
  const RA_SIGN_STATE := 34

  const DOUBLE_WORD := 0x1_0000_0000_0000_0000

  datatype Location =
    | Undefined
    | Offset(offset: nat)
    | ValOffset(offset: nat)
    | Register(reg: nat, offset: nat)
    | Expression(length: nat, end: nat)
    | ValExpression(length: nat, end: nat)
    | PseudoRegister(value: nat)

  type Rules = map<nat, Location>

  /** Register rules and the range of pcs they are said to be valid for. */
  datatype Locations = Locations(rules: Rules, pcStart: nat, pcEnd: nat)

  /** What a state is remembered with. The end of a range is written only when a lookup returns, so no run reads it. */
  datatype Row = Row(rules: Rules, pcStart: nat)

  /** An instruction with its operands; a block operand is its length and the place where it ends. */
  datatype Instruction =
    | Nop
    | AdvanceLoc(delta: nat)
    | SetLoc(pc: nat)
    | OffsetRule(reg: nat, offset: nat)
    | OffsetExtended(reg: nat, offset: nat)
    | OffsetExtendedSf(reg: nat, offset: nat)
    | GnuNegativeOffset(reg: nat, offset: nat)
    | ValOffsetRule(reg: nat, offset: nat)
    | Restore(reg: nat)
    | UndefinedRule(reg: nat)
    | SameValue(reg: nat)
    | RegisterRule(reg: nat, source: nat)
    | RememberState
    | RestoreState
    | DefCfa(reg: nat, offset: nat)
    | DefCfaSf(reg: nat, offset: nat)
    | DefCfaRegister(reg: nat)
    | DefCfaOffset(offset: nat)
    | DefCfaOffsetSf(offset: nat)
    | DefCfaExpression(length: nat, end: nat)
    | ExpressionRule(reg: nat, length: nat, end: nat)
    | ValExpressionRule(reg: nat, length: nat, end: nat)
    | NegateRaState
    | Illegal

  /** What a program is run for: the FDE's range, the alignment factors of its CIE, the word and the machine. */
  datatype Context = Context(pcStart: nat, pcEnd: nat, codeAlign: nat, dataAlign: int, word: nat, arm64: bool)

  ghost predicate Proper(c: Context) {
    IsWord(c.word) && c.pcStart < c.word
  }

  /** The machine between two instructions. */
  datatype Machine = Machine(row: Row, stack: seq<Row>, pc: nat)

  /** A word read as a signed number. */
  function Signed(x: int, word: nat): int
    requires word > 0
  {
    if x % word < word / 2 then x % word else x % word - word
  }

  /** An operand times the data alignment, as a signed word stored in 64 bits. */
  function Scaled(c: Context, operand: nat): nat
    requires Proper(c)
  {
    Signed(Signed(operand, c.word) * c.dataAlign, c.word) % DOUBLE_WORD
  }

  function Negated(c: Context, operand: nat): nat
    requires Proper(c)
  {
    Signed(-Signed(operand, c.word), c.word) % DOUBLE_WORD
  }

  /** The CFA rule is a register and an offset, which is what the instructions that change one of them need. */
  predicate CfaIsRegister(rules: Rules) {
    CFA_REG in rules && rules[CFA_REG].Register?
  }

  /** What an instruction does to the rules alone. */
  function Rule(c: Context, cie: Option<Rules>, i: Instruction, rules: Rules): Option<Rules>
    requires Proper(c)
  {
    match i
    case OffsetRule(reg, offset) => Some(rules[reg := Offset(Scaled(c, offset))])
    // The offset of this one is not scaled.
    case OffsetExtended(reg, offset) => Some(rules[reg := Offset(offset)])
    case OffsetExtendedSf(reg, offset) => Some(rules[reg := Offset(Scaled(c, offset))])
    case GnuNegativeOffset(reg, offset) => Some(rules[reg := Offset(Negated(c, offset))])
    case ValOffsetRule(reg, offset) => Some(rules[reg := ValOffset(Scaled(c, offset))])
    case Restore(reg) =>
      if cie.None? then None
      else if reg in cie.value then Some(rules[reg := cie.value[reg]]) else Some(rules - {reg})
    case UndefinedRule(reg) => Some(rules[reg := Undefined])
    case SameValue(reg) => Some(rules - {reg})
    case RegisterRule(reg, source) => Some(rules[reg := Register(source, 0)])
    case DefCfa(reg, offset) => Some(rules[CFA_REG := Register(reg, offset)])
    case DefCfaSf(reg, offset) => Some(rules[CFA_REG := Register(reg, Scaled(c, offset))])
    case DefCfaRegister(reg) =>
      if CfaIsRegister(rules) then Some(rules[CFA_REG := rules[CFA_REG].(reg := reg)]) else None
    case DefCfaOffset(offset) =>
      if CfaIsRegister(rules) then Some(rules[CFA_REG := Register(rules[CFA_REG].reg, offset)]) else None
    case DefCfaOffsetSf(offset) =>
      if CfaIsRegister(rules) then Some(rules[CFA_REG := Register(rules[CFA_REG].reg, Scaled(c, offset))]) else None
    case DefCfaExpression(length, end) => Some(rules[CFA_REG := ValExpression(length, end)])
    case ExpressionRule(reg, length, end) => Some(rules[reg := Expression(length, end)])
    case ValExpressionRule(reg, length, end) => Some(rules[reg := ValExpression(length, end)])
    case NegateRaState =>
      if !c.arm64 then None
      else if RA_SIGN_STATE in rules then Some(rules[RA_SIGN_STATE := Flipped(rules[RA_SIGN_STATE])])
      else Some(rules[RA_SIGN_STATE := PseudoRegister(1)])
    case Illegal => None
    case _ => Some(rules)
  }

  /** The register whose rule an instruction sets, if it sets one. */
  function Target(i: Instruction): Option<nat> {
    match i
    case OffsetRule(reg, _) => Some(reg)
    case OffsetExtended(reg, _) => Some(reg)
    case OffsetExtendedSf(reg, _) => Some(reg)
    case GnuNegativeOffset(reg, _) => Some(reg)
    case ValOffsetRule(reg, _) => Some(reg)
    case Restore(reg) => Some(reg)
    case UndefinedRule(reg) => Some(reg)
    case SameValue(reg) => Some(reg)
    case RegisterRule(reg, _) => Some(reg)
    case ExpressionRule(reg, _, _) => Some(reg)
    case ValExpressionRule(reg, _, _) => Some(reg)
    case DefCfa(_, _) => Some(CFA_REG)
    case DefCfaSf(_, _) => Some(CFA_REG)
    case DefCfaRegister(_) => Some(CFA_REG)
    case DefCfaOffset(_) => Some(CFA_REG)
    case DefCfaOffsetSf(_) => Some(CFA_REG)
    case DefCfaExpression(_, _) => Some(CFA_REG)
    case NegateRaState => Some(RA_SIGN_STATE)
    case _ => None
  }

  /** An instruction leaves the rules of all other registers alone. */
  lemma RuleTouchesTarget(c: Context, cie: Option<Rules>, i: Instruction, rules: Rules, reg: nat)
    requires Proper(c) && Rule(c, cie, i, rules).Some? && Target(i) != Some(reg)
    ensures var rules' := Rule(c, cie, i, rules).value;
            (reg in rules' <==> reg in rules) && (reg in rules ==> rules'[reg] == rules[reg])
  {
    hide Scaled, Negated;
  }

  /** Setting register and offset of the CFA one after the other is setting both, and negating twice is doing nothing once
      there is a sign state. */
  lemma RulesCompose(c: Context, cie: Option<Rules>, rules: Rules, reg: nat, offset: nat, reg': nat, offset': nat)
    requires Proper(c)
    ensures var base := Rule(c, cie, DefCfa(reg, offset), rules).value;
            var moved := Rule(c, cie, DefCfaRegister(reg'), base);
            moved.Some? && Rule(c, cie, DefCfaOffset(offset'), moved.value) == Rule(c, cie, DefCfa(reg', offset'), rules)
    ensures c.arm64 && RA_SIGN_STATE in rules ==>
              Rule(c, cie, NegateRaState, Rule(c, cie, NegateRaState, rules).value) == Some(rules)
  {
    hide Scaled, Negated;
    CfaRegisterThenOffset(c, cie, rules, reg, offset, reg', offset');
    if c.arm64 && RA_SIGN_STATE in rules {
      NegatedTwice(c, cie, rules);
    }
  }

  lemma CfaRegisterThenOffset(c: Context, cie: Option<Rules>, rules: Rules, reg: nat, offset: nat, reg': nat, offset': nat)
    requires Proper(c)
    ensures var base := Rule(c, cie, DefCfa(reg, offset), rules).value;
            var moved := Rule(c, cie, DefCfaRegister(reg'), base);
            moved.Some? && Rule(c, cie, DefCfaOffset(offset'), moved.value) == Rule(c, cie, DefCfa(reg', offset'), rules)
  {
    hide Scaled, Negated;
    var base: Rules := rules[CFA_REG := Register(reg, offset)];
    var moved: Rules := base[CFA_REG := Register(reg', offset)];
    assert moved[CFA_REG := Register(reg', offset')] == rules[CFA_REG := Register(reg', offset')];
  }

  lemma NegatedTwice(c: Context, cie: Option<Rules>, rules: Rules)
    requires Proper(c) && c.arm64 && RA_SIGN_STATE in rules
    ensures Rule(c, cie, NegateRaState, Rule(c, cie, NegateRaState, rules).value) == Some(rules)
  {
    hide Scaled, Negated;
    var once: Rules := rules[RA_SIGN_STATE := Flipped(rules[RA_SIGN_STATE])];
    assert Flipped(Flipped(rules[RA_SIGN_STATE])) == rules[RA_SIGN_STATE];
    assert once[RA_SIGN_STATE := rules[RA_SIGN_STATE]] == rules;
  }

  /** The extended offset, which is not multiplied by the data alignment, is what a multiplied one would be if and only if
      the alignment changes nothing modulo the word, and, in words of 32 bits, the sign is clear. */
  lemma ExtendedOffsetAgrees(c: Context, cie: Option<Rules>, rules: Rules, reg: nat, operand: nat)
    requires Proper(c) && operand < c.word
    ensures Rule(c, cie, OffsetExtended(reg, operand), rules) == Rule(c, cie, OffsetRule(reg, operand), rules) <==>
              operand * (c.dataAlign - 1) % c.word == 0 && (c.word == DOUBLE_WORD || operand < c.word / 2)
  {
    var extended: Rules, multiplied: Rules := rules[reg := Offset(operand)], rules[reg := Offset(Scaled(c, operand))];
    assert extended[reg] == Offset(operand) && multiplied[reg] == Offset(Scaled(c, operand));
    assert extended == multiplied <==> operand == Scaled(c, operand);
    ScaledIs(c, operand);
  }

  /** With a data alignment of -8, an operand of 2 puts a register 2 bytes above the CFA with the one instruction and 16
      bytes below it with the other. */
  lemma ExtendedOffsetDiffers(cie: Option<Rules>, reg: nat)
    ensures var c := Context(0x100, 0x200, 1, -8, DOUBLE_WORD, false);
            && Proper(c) && Rule(c, cie, OffsetExtended(reg, 2), map[]) == Some(map[reg := Offset(2)])
            && Rule(c, cie, OffsetRule(reg, 2), map[]) == Some(map[reg := Offset(DOUBLE_WORD - 16)])
  {
    assert -16 % DOUBLE_WORD == DOUBLE_WORD - 16;
  }

  lemma ScaledIs(c: Context, operand: nat)
    requires Proper(c) && operand < c.word
    ensures Scaled(c, operand) == operand <==>
              operand * (c.dataAlign - 1) % c.word == 0 && (c.word == DOUBLE_WORD || operand < c.word / 2)
  {
    var product := operand * c.dataAlign;
    SignedProduct(operand, c.dataAlign, c.word);
    SignedAgain(Signed(operand, c.word) * c.dataAlign, product, c.word);
    assert operand * (c.dataAlign - 1) == product - operand;
    SameRemainder(product, operand, c.word);
    hide Signed, Proper;
    assert Scaled(c, operand) == Signed(product, c.word) % DOUBLE_WORD;
    SignedIsWord(product, operand, c.word);
  }

  /** A signed word times a number, as a word. */
  lemma SignedProduct(operand: nat, a: int, word: nat)
    requires IsWord(word) && operand < word
    ensures Signed(operand, word) * a % word == operand * a % word
  {
    SignedIsNear(operand, word);
    hide Signed, IsWord;
    var k := if Signed(operand, word) == operand then 0 else -a;
    assert Signed(operand, word) * a == operand * a + word * k by {
      if Signed(operand, word) != operand {
        assert (operand - word) * a == operand * a - word * a;
      }
    }
    MultipleAway(operand * a, k, word);
  }

  lemma SignedIsNear(operand: nat, word: nat)
    requires IsWord(word) && operand < word
    ensures Signed(operand, word) == operand || Signed(operand, word) == operand - word
  {
  }

  ghost predicate IsWord(word: nat) {
    word == 0x1_0000_0000 || word == DOUBLE_WORD
  }

  lemma MultipleAway(x: int, k: int, word: nat)
    requires IsWord(word)
    ensures (x + word * k) % word == x % word
  {
    if word == DOUBLE_WORD {
      assert (x + DOUBLE_WORD * k) % DOUBLE_WORD == x % DOUBLE_WORD;
    } else {
      assert (x + 0x1_0000_0000 * k) % 0x1_0000_0000 == x % 0x1_0000_0000;
    }
  }

  lemma SignedAgain(x: int, y: int, word: nat)
    requires word > 0 && x % word == y % word
    ensures Signed(x, word) == Signed(y, word)
  {
  }

  lemma SameRemainder(x: int, operand: nat, word: nat)
    requires IsWord(word) && operand < word
    ensures (x - operand) % word == 0 <==> x % word == operand
  {
    if word == DOUBLE_WORD {
      assert (x - operand) % DOUBLE_WORD == 0 <==> x % DOUBLE_WORD == operand;
    } else {
      assert (x - operand) % 0x1_0000_0000 == 0 <==> x % 0x1_0000_0000 == operand;
    }
  }

  lemma SignedIsWord(x: int, operand: nat, word: nat)
    requires IsWord(word) && operand < word
    ensures Signed(x, word) % DOUBLE_WORD == operand <==> x % word == operand && (word == DOUBLE_WORD || operand < word / 2)
  {
    var r := x % word;
    if word == DOUBLE_WORD {
      assert (r - DOUBLE_WORD) % DOUBLE_WORD == r;
    } else if r >= word / 2 {
      assert (r - 0x1_0000_0000) % DOUBLE_WORD == DOUBLE_WORD + r - 0x1_0000_0000;
    }
  }

  function FlipBit(x: nat): nat {
    if x % 2 == 0 then x + 1 else x - 1
  }

  /** The first value of a rule, whatever its kind, with its lowest bit flipped. */
  function Flipped(l: Location): Location {
    match l
    case Undefined => l
    case Offset(v) => Offset(FlipBit(v))
    case ValOffset(v) => ValOffset(FlipBit(v))
    case Register(reg, offset) => Register(FlipBit(reg), offset)
    case Expression(length, end) => Expression(FlipBit(length), end)
    case ValExpression(length, end) => ValExpression(FlipBit(length), end)
    case PseudoRegister(v) => PseudoRegister(FlipBit(v))
  }

  /** One instruction. The start of the range is set to the location first; restoring a state brings back its range. */
  function Exec(c: Context, cie: Option<Rules>, i: Instruction, m: Machine): Option<Machine>
    requires Proper(c)
  {
    var row := m.row.(pcStart := m.pc);
    match i
    case AdvanceLoc(delta) => Some(Machine(row, m.stack, (m.pc + delta * c.codeAlign) % c.word))
    case SetLoc(pc) => Some(Machine(row, m.stack, pc % c.word))
    case RememberState => Some(Machine(row, m.stack + [row], m.pc))
    case RestoreState =>
      if m.stack == [] then Some(Machine(row, [], m.pc))
      else Some(Machine(m.stack[|m.stack| - 1], m.stack[..|m.stack| - 1], m.pc))
    case _ =>
      var rules := Rule(c, cie, i, m.row.rules);
      if rules.None? then None else Some(Machine(row.(rules := rules.value), m.stack, m.pc))
  }

  datatype Outcome = Failed | Found(machine: Machine, pcEnd: nat)

  /** From the kth instruction on, until the location passes `pc` or the program ends. */
  function Run(c: Context, cie: Option<Rules>, program: seq<Instruction>, k: nat, m: Machine, pc: nat): Outcome
    requires Proper(c) && k <= |program|
    decreases |program| - k
  {
    if m.pc > pc then Found(m, m.pc)
    else if k == |program| then Found(m, c.pcEnd)
    else
      var next := Exec(c, cie, program[k], m);
      if next.None? then Failed else Run(c, cie, program, k + 1, next.value, pc)
  }

  /** The machine after the first k instructions, whatever the location. */
  function After(c: Context, cie: Option<Rules>, program: seq<Instruction>, k: nat, m: Machine): Option<Machine>
    requires Proper(c) && k <= |program|
  {
    if k == 0 then Some(m)
    else
      var before := After(c, cie, program, k - 1, m);
      if before.None? then None else Exec(c, cie, program[k - 1], before.value)
  }

  function Ended(c: Context, m: Machine, pc: nat): Outcome {
    Found(m, if m.pc > pc then m.pc else c.pcEnd)
  }

  /** The run for `pc` does not end after j instructions, unless the program does. */
  ghost predicate GoesOn(c: Context, cie: Option<Rules>, program: seq<Instruction>, m: Machine, pc: nat, j: nat)
    requires Proper(c) && j <= |program|
  {
    After(c, cie, program, j, m).Some? && After(c, cie, program, j, m).value.pc <= pc
  }

  /** The run for `pc` ends after n instructions. */
  ghost predicate StopsAt(c: Context, cie: Option<Rules>, program: seq<Instruction>, m: Machine, pc: nat, n: nat)
    requires Proper(c)
  {
    && n <= |program| && After(c, cie, program, n, m).Some?
    && (forall j :: 0 <= j < n ==> GoesOn(c, cie, program, m, pc, j))
    && (After(c, cie, program, n, m).value.pc > pc || n == |program|)
  }

  lemma {:induction false} RunThatStops(c: Context, cie: Option<Rules>, program: seq<Instruction>, k: nat, m: Machine, pc: nat, n: nat)
    requires Proper(c) && StopsAt(c, cie, program, m, pc, n) && k <= n
    ensures After(c, cie, program, k, m).Some?
    ensures Run(c, cie, program, k, After(c, cie, program, k, m).value, pc) == Ended(c, After(c, cie, program, n, m).value, pc)
    decreases n - k
  {
    if k < n {
      assert GoesOn(c, cie, program, m, pc, k);
      RunThatStops(c, cie, program, k + 1, m, pc, n);
      assert After(c, cie, program, k + 1, m) == Exec(c, cie, program[k], After(c, cie, program, k, m).value);
    }
  }

  lemma {:induction false} RunStops(c: Context, cie: Option<Rules>, program: seq<Instruction>, k: nat, m: Machine, pc: nat) returns (n: nat)
    requires Proper(c) && k <= |program| && After(c, cie, program, k, m).Some?
    requires forall j :: 0 <= j < k ==> GoesOn(c, cie, program, m, pc, j)
    requires Run(c, cie, program, k, After(c, cie, program, k, m).value, pc).Found?
    ensures StopsAt(c, cie, program, m, pc, n)
    decreases |program| - k
  {
    var now := After(c, cie, program, k, m).value;
    if now.pc > pc || k == |program| {
      n := k;
    } else {
      assert After(c, cie, program, k + 1, m) == Exec(c, cie, program[k], now);
      n := RunStops(c, cie, program, k + 1, m, pc);
    }
  }

  /** No instruction that the program gets to moves the location back, by wrapping or otherwise. */
  ghost predicate NeverBack(c: Context, cie: Option<Rules>, program: seq<Instruction>, m: Machine)
    requires Proper(c)
  {
    forall j :: 0 < j <= |program| && After(c, cie, program, j, m).Some? ==> ForwardAt(c, cie, program, m, j)
  }

  ghost predicate ForwardAt(c: Context, cie: Option<Rules>, program: seq<Instruction>, m: Machine, j: nat)
    requires Proper(c) && 0 < j <= |program| && After(c, cie, program, j, m).Some?
  {
    After(c, cie, program, j - 1, m).value.pc <= After(c, cie, program, j, m).value.pc
  }

  lemma {:induction false} Forward(c: Context, cie: Option<Rules>, program: seq<Instruction>, m: Machine, j: nat, k: nat)
    requires Proper(c) && NeverBack(c, cie, program, m) && j <= k <= |program| && After(c, cie, program, k, m).Some?
    ensures After(c, cie, program, j, m).Some?
    ensures After(c, cie, program, j, m).value.pc <= After(c, cie, program, k, m).value.pc
    decreases k
  {
    hide Exec;
    if j < k {
      Forward(c, cie, program, m, j, k - 1);
      assert ForwardAt(c, cie, program, m, k);
    }
  }

  /** Where the row begins that the first n instructions end with: the location before the last of them. */
  function RowStart(c: Context, cie: Option<Rules>, program: seq<Instruction>, m: Machine, n: nat): nat
    requires Proper(c) && n <= |program| && After(c, cie, program, n, m).Some?
  {
    if n == 0 then m.pc else After(c, cie, program, n - 1, m).value.pc
  }

  /** The last instruction restores a remembered state. */
  predicate EndsInPop(c: Context, cie: Option<Rules>, program: seq<Instruction>, m: Machine, n: nat)
    requires Proper(c) && n <= |program| && After(c, cie, program, n, m).Some?
  {
    n > 0 && program[n - 1].RestoreState? && After(c, cie, program, n - 1, m).value.stack != []
  }

  ghost predicate StackBelow(m: Machine) {
    forall i :: 0 <= i < |m.stack| ==> m.stack[i].pcStart <= m.pc
  }

  /** No remembered range starts beyond the location. */
  lemma {:induction false} StackStaysBelow(c: Context, cie: Option<Rules>, program: seq<Instruction>, m: Machine, k: nat)
    requires Proper(c) && NeverBack(c, cie, program, m) && StackBelow(m)
    requires k <= |program| && After(c, cie, program, k, m).Some?
    ensures StackBelow(After(c, cie, program, k, m).value)
  {
    if k > 0 {
      StackStaysBelow(c, cie, program, m, k - 1);
      assert ForwardAt(c, cie, program, m, k);
      ExecKeepsBelow(c, cie, program[k - 1], After(c, cie, program, k - 1, m).value);
    }
  }

  lemma ExecKeepsBelow(c: Context, cie: Option<Rules>, i: Instruction, m: Machine)
    requires Proper(c) && StackBelow(m) && Exec(c, cie, i, m).Some? && m.pc <= Exec(c, cie, i, m).value.pc
    ensures StackBelow(Exec(c, cie, i, m).value)
  {
    hide Rule;
  }

  /** A run of an FDE starts with its location. */
  ghost predicate AtStart(c: Context, m: Machine) {
    m.pc == c.pcStart == m.row.pcStart && StackBelow(m)
  }

  /** The start of the range that the last instruction brings back. */
  function TopStart(c: Context, cie: Option<Rules>, program: seq<Instruction>, m: Machine, n: nat): nat
    requires Proper(c) && n <= |program| && After(c, cie, program, n, m).Some? && EndsInPop(c, cie, program, m, n)
  {
    var stack := After(c, cie, program, n - 1, m).value.stack;
    stack[|stack| - 1].pcStart
  }

  lemma StartAfterExec(c: Context, cie: Option<Rules>, i: Instruction, m: Machine)
    requires Proper(c) && StackBelow(m) && Exec(c, cie, i, m).Some?
    ensures var start := Exec(c, cie, i, m).value.row.pcStart;
            if i.RestoreState? && m.stack != [] then start == m.stack[|m.stack| - 1].pcStart && start <= m.pc
            else start == m.pc
  {
    hide Rule;
  }

  /** The start of the range after n instructions is where its row begins, unless the last of them restored a state that
      was remembered earlier. */
  lemma StartAfter(c: Context, cie: Option<Rules>, program: seq<Instruction>, m: Machine, n: nat)
    requires Proper(c) && AtStart(c, m) && NeverBack(c, cie, program, m)
    requires n <= |program| && After(c, cie, program, n, m).Some?
    ensures var start := After(c, cie, program, n, m).value.row.pcStart;
            var row := RowStart(c, cie, program, m, n);
            && start <= row
            && (start == row <==> !EndsInPop(c, cie, program, m, n) || TopStart(c, cie, program, m, n) == row)
  {
    hide Rule;
    if n > 0 {
      StackStaysBelow(c, cie, program, m, n - 1);
      hide NeverBack;
      StartAfterExec(c, cie, program[n - 1], After(c, cie, program, n - 1, m).value);
    }
  }

  /** A lookup stops after the same instructions for every pc from the start of the row to its end. */
  lemma SameStop(c: Context, cie: Option<Rules>, program: seq<Instruction>, m: Machine, pc: nat, n: nat, pc': nat)
    requires Proper(c) && NeverBack(c, cie, program, m) && StopsAt(c, cie, program, m, pc, n)
    requires RowStart(c, cie, program, m, n) <= pc' < Ended(c, After(c, cie, program, n, m).value, pc).pcEnd
    ensures StopsAt(c, cie, program, m, pc', n)
  {
    hide Exec, Run, After, NeverBack;
    forall j | 0 <= j < n
      ensures GoesOn(c, cie, program, m, pc', j)
    {
      assert GoesOn(c, cie, program, m, pc, n - 1);
      Forward(c, cie, program, m, j, n - 1);
    }
  }

  /** The row a lookup returns contains the pc, and every pc from the true start of the row to the reported end gets the
      same rules. The reported start is never too late, and is the true one unless the program ends in a pop. */
  lemma RowIsValid(c: Context, cie: Option<Rules>, program: seq<Instruction>, m: Machine, pc: nat, n: nat)
    requires Proper(c) && AtStart(c, m) && NeverBack(c, cie, program, m) && c.pcStart <= pc < c.pcEnd
    requires StopsAt(c, cie, program, m, pc, n)
    ensures var found := Run(c, cie, program, 0, m, pc);
            var row := RowStart(c, cie, program, m, n);
            && found.Found? && found.machine.row.pcStart <= row <= pc < found.pcEnd
            && (found.machine.row.pcStart == row <==> !EndsInPop(c, cie, program, m, n) || TopStart(c, cie, program, m, n) == row)
            && forall pc' :: row <= pc' < found.pcEnd ==> SameRules(c, cie, program, m, pc', found)
  {
    hide Exec, Run;
    RunThatStops(c, cie, program, 0, m, pc, n);
    assert n > 0 ==> GoesOn(c, cie, program, m, pc, n - 1);
    StartAfter(c, cie, program, m, n);
    var found := Run(c, cie, program, 0, m, pc);
    forall pc' | RowStart(c, cie, program, m, n) <= pc' < found.pcEnd
      ensures SameRules(c, cie, program, m, pc', found)
    {
      SameStop(c, cie, program, m, pc, n, pc');
      RunThatStops(c, cie, program, 0, m, pc', n);
    }
  }

  ghost predicate SameRules(c: Context, cie: Option<Rules>, program: seq<Instruction>, m: Machine, pc: nat, found: Outcome)
    requires Proper(c) && found.Found?
  {
    var own := Run(c, cie, program, 0, m, pc);
    own.Found? && own.machine.row.rules == found.machine.row.rules
  }

  /** Only a lookup that runs to the end of the program can end in a pop. */
  lemma PopIsLast(c: Context, cie: Option<Rules>, program: seq<Instruction>, m: Machine, pc: nat, n: nat)
    requires Proper(c) && StopsAt(c, cie, program, m, pc, n) && EndsInPop(c, cie, program, m, n)
    ensures n == |program|
  {
    hide Rule;
    assert GoesOn(c, cie, program, m, pc, n - 1);
  }

  /** The program ends in a pop, and the row that the pop begins is not empty. */
  predicate LastRowPops(c: Context, cie: Option<Rules>, program: seq<Instruction>, m: Machine)
    requires Proper(c)
  {
    var n := |program|;
    After(c, cie, program, n, m).Some? && EndsInPop(c, cie, program, m, n) && RowStart(c, cie, program, m, n) < c.pcEnd
  }

  /** After j instructions a row is complete that is not empty and ends beyond `start`. */
  predicate CompletesRow(c: Context, cie: Option<Rules>, program: seq<Instruction>, m: Machine, j: nat, start: nat)
    requires Proper(c) && j <= |program|
  {
    var now := After(c, cie, program, j, m);
    now.Some? && start < now.value.pc && (j > 0 ==> After(c, cie, program, j - 1, m).value.pc < now.value.pc)
  }

  /** The rows before the last one, back to where the state was remembered that the pop at the end of the program restores,
      all have the rules it restores. */
  ghost predicate HarmlessPop(c: Context, cie: Option<Rules>, program: seq<Instruction>, m: Machine)
    requires Proper(c)
  {
    var n := |program|;
    LastRowPops(c, cie, program, m) ==>
      forall j :: 0 <= j < n && CompletesRow(c, cie, program, m, j, TopStart(c, cie, program, m, n)) ==>
        After(c, cie, program, j, m).value.row.rules == After(c, cie, program, n, m).value.row.rules
  }

  /** Every pc that the pop draws into the last row gets the rules of the last row. */
  ghost predicate PopServes(c: Context, cie: Option<Rules>, program: seq<Instruction>, m: Machine)
    requires Proper(c)
  {
    var n := |program|;
    LastRowPops(c, cie, program, m) ==>
      var found := Found(After(c, cie, program, n, m).value, c.pcEnd);
      forall pc: nat :: TopStart(c, cie, program, m, n) <= pc < RowStart(c, cie, program, m, n) ==> SameRules(c, cie, program, m, pc, found)
  }

  /** A pc that the location has passed after k instructions belongs to a row complete by then. */
  lemma {:induction false} CompletedBy(c: Context, cie: Option<Rules>, program: seq<Instruction>, m: Machine, pc: nat, k: nat) returns (j: nat)
    requires Proper(c) && NeverBack(c, cie, program, m) && k <= |program|
    requires After(c, cie, program, k, m).Some? && pc < After(c, cie, program, k, m).value.pc
    ensures j <= k && StopsAt(c, cie, program, m, pc, j) && CompletesRow(c, cie, program, m, j, pc)
    decreases k
  {
    hide Exec, NeverBack;
    if k == 0 || After(c, cie, program, k - 1, m).value.pc <= pc {
      j := k;
      forall i | 0 <= i < k
        ensures GoesOn(c, cie, program, m, pc, i)
      {
        Forward(c, cie, program, m, i, k - 1);
      }
    } else {
      j := CompletedBy(c, cie, program, m, pc, k - 1);
    }
  }

  /** A complete row is what a lookup for its last pc finds. */
  lemma CompletedIsFound(c: Context, cie: Option<Rules>, program: seq<Instruction>, m: Machine, j: nat, start: nat)
    requires Proper(c) && NeverBack(c, cie, program, m) && j <= |program| && CompletesRow(c, cie, program, m, j, start)
    ensures var now := After(c, cie, program, j, m).value; StopsAt(c, cie, program, m, now.pc - 1, j)
  {
    hide Exec, NeverBack;
    var pc := After(c, cie, program, j, m).value.pc - 1;
    forall i | 0 <= i < j
      ensures GoesOn(c, cie, program, m, pc, i)
    {
      Forward(c, cie, program, m, i, j - 1);
    }
  }

  /** What the machine goes through decides what the lookups find. */
  lemma PopServesIff(c: Context, cie: Option<Rules>, program: seq<Instruction>, m: Machine)
    requires Proper(c) && NeverBack(c, cie, program, m)
    ensures HarmlessPop(c, cie, program, m) <==> PopServes(c, cie, program, m)
  {
    hide Exec, Run, NeverBack, StopsAt;
    if LastRowPops(c, cie, program, m) {
      var n, start := |program|, TopStart(c, cie, program, m, |program|);
      var found := Found(After(c, cie, program, n, m).value, c.pcEnd);
      if HarmlessPop(c, cie, program, m) {
        forall pc: nat | start <= pc < RowStart(c, cie, program, m, n)
          ensures SameRules(c, cie, program, m, pc, found)
        {
          var j := CompletedBy(c, cie, program, m, pc, n - 1);
          RunThatStops(c, cie, program, 0, m, pc, j);
          assert CompletesRow(c, cie, program, m, j, start);
        }
      }
      if PopServes(c, cie, program, m) {
        forall j | 0 <= j < n && CompletesRow(c, cie, program, m, j, start)
          ensures After(c, cie, program, j, m).value.row.rules == After(c, cie, program, n, m).value.row.rules
        {
          var pc := After(c, cie, program, j, m).value.pc - 1;
          Forward(c, cie, program, m, j, n - 1);
          CompletedIsFound(c, cie, program, m, j, start);
          RunThatStops(c, cie, program, 0, m, pc, j);
          assert SameRules(c, cie, program, m, pc, found);
        }
      }
    }
  }

  /** Every pc in a reported range gets the rules of the range. */
  ghost predicate RangeServes(c: Context, cie: Option<Rules>, program: seq<Instruction>, m: Machine, p: nat, pc: nat)
    requires Proper(c)
  {
    var found := Run(c, cie, program, 0, m, p);
    found.Found? && found.machine.row.pcStart <= pc < found.pcEnd ==> SameRules(c, cie, program, m, pc, found)
  }

  /** If the location never moves back, every pc in every reported range gets the rules of the range if and only if the pop
      at the end of the program, if there is one, is harmless. */
  lemma RangesServeIff(c: Context, cie: Option<Rules>, program: seq<Instruction>, m: Machine)
    requires Proper(c) && AtStart(c, m) && NeverBack(c, cie, program, m)
    ensures HarmlessPop(c, cie, program, m) <==>
              forall p: nat, pc: nat :: c.pcStart <= p < c.pcEnd ==> RangeServes(c, cie, program, m, p, pc)
  {
    hide NeverBack, AtStart, HarmlessPop;
    if HarmlessPop(c, cie, program, m) {
      forall p: nat, pc: nat | c.pcStart <= p < c.pcEnd
        ensures RangeServes(c, cie, program, m, p, pc)
      {
        RangeIsServed(c, cie, program, m, p, pc);
      }
    } else {
      var pc := PopReachesBack(c, cie, program, m);
    }
  }

  lemma RangeIsServed(c: Context, cie: Option<Rules>, program: seq<Instruction>, m: Machine, p: nat, pc: nat)
    requires Proper(c) && AtStart(c, m) && NeverBack(c, cie, program, m) && c.pcStart <= p < c.pcEnd
    requires HarmlessPop(c, cie, program, m)
    ensures RangeServes(c, cie, program, m, p, pc)
  {
    hide Run, Exec, NeverBack, HarmlessPop;
    PopServesIff(c, cie, program, m);
    if Run(c, cie, program, 0, m, p).Found? {
      assert After(c, cie, program, 0, m) == Some(m);
      var n := RunStops(c, cie, program, 0, m, p);
      RowIsValid(c, cie, program, m, p, n);
      RunThatStops(c, cie, program, 0, m, p, n);
      StartAfter(c, cie, program, m, n);
      if EndsInPop(c, cie, program, m, n) {
        PopIsLast(c, cie, program, m, p, n);
        PopStart(c, cie, program, m, n);
        assert GoesOn(c, cie, program, m, p, n - 1);
      }
    }
  }

  lemma PopStart(c: Context, cie: Option<Rules>, program: seq<Instruction>, m: Machine, n: nat)
    requires Proper(c) && n <= |program| && After(c, cie, program, n, m).Some? && EndsInPop(c, cie, program, m, n)
    ensures After(c, cie, program, n, m).value.row.pcStart == TopStart(c, cie, program, m, n)
    ensures After(c, cie, program, n, m).value.pc == RowStart(c, cie, program, m, n)
  {
    hide Rule;
  }

  /** A pop that is not harmless: the lookup at the start of the last row reports a range that contains a pc with other
      rules. */
  lemma PopReachesBack(c: Context, cie: Option<Rules>, program: seq<Instruction>, m: Machine) returns (pc: nat)
    requires Proper(c) && AtStart(c, m) && NeverBack(c, cie, program, m) && !HarmlessPop(c, cie, program, m)
    ensures After(c, cie, program, |program|, m).Some?
    ensures var p := RowStart(c, cie, program, m, |program|);
            && c.pcStart <= p < c.pcEnd && Run(c, cie, program, 0, m, p).Found?
            && Run(c, cie, program, 0, m, p).machine.row.pcStart <= pc < Run(c, cie, program, 0, m, p).pcEnd
            && pc < p && !RangeServes(c, cie, program, m, p, pc)
  {
    hide Run, Exec, NeverBack, HarmlessPop;
    PopServesIff(c, cie, program, m);
    var n := |program|;
    var p := RowStart(c, cie, program, m, n);
    var found := Found(After(c, cie, program, n, m).value, c.pcEnd);
    pc :| TopStart(c, cie, program, m, n) <= pc < p && !SameRules(c, cie, program, m, pc, found);
    PopStart(c, cie, program, m, n);
    forall j | 0 <= j < n
      ensures GoesOn(c, cie, program, m, p, j)
    {
      Forward(c, cie, program, m, j, n - 1);
    }
    Forward(c, cie, program, m, 0, n - 1);
    assert StopsAt(c, cie, program, m, p, n);
    RunThatStops(c, cie, program, 0, m, p, n);
  }

  /** No range starts before the FDE. */
  ghost predicate StartsFrom(c: Context, m: Machine) {
    c.pcStart <= m.pc && c.pcStart <= m.row.pcStart && forall i :: 0 <= i < |m.stack| ==> c.pcStart <= m.stack[i].pcStart
  }

  lemma {:induction false} StartsStayWithin(c: Context, cie: Option<Rules>, program: seq<Instruction>, m: Machine, k: nat)
    requires Proper(c) && NeverBack(c, cie, program, m) && StartsFrom(c, m)
    requires k <= |program| && After(c, cie, program, k, m).Some?
    ensures StartsFrom(c, After(c, cie, program, k, m).value)
  {
    if k > 0 {
      StartsStayWithin(c, cie, program, m, k - 1);
      assert ForwardAt(c, cie, program, m, k);
      ExecKeepsStarts(c, cie, program[k - 1], After(c, cie, program, k - 1, m).value);
    }
  }

  lemma ExecKeepsStarts(c: Context, cie: Option<Rules>, i: Instruction, m: Machine)
    requires Proper(c) && StartsFrom(c, m) && Exec(c, cie, i, m).Some? && m.pc <= Exec(c, cie, i, m).value.pc
    ensures StartsFrom(c, Exec(c, cie, i, m).value)
  {
    hide Rule;
  }

  /** A program whose last instruction restores a state: the range reported for a pc of the last row reaches back over a
      row with other rules. */
  lemma TrailingPopReachesBack(cie: Option<Rules>)
    ensures var c := Context(0x100, 0x200, 1, 1, DOUBLE_WORD, false);
            var program := [RememberState, AdvanceLoc(4), UndefinedRule(1), AdvanceLoc(4), RestoreState];
            var m := Machine(Row(map[], 0x100), [], 0x100);
            && Proper(c) && AtStart(c, m) && NeverBack(c, cie, program, m)
            && Run(c, cie, program, 0, m, 0x108) == Found(Machine(Row(map[], 0x100), [], 0x108), 0x200)
            && (forall j :: 0 <= j <= |program| && After(c, cie, program, j, m).Some? ==> After(c, cie, program, j, m).value.pc <= c.pcEnd)
            && Run(c, cie, program, 0, m, 0x104) == Found(Machine(Row(map[1 := Undefined], 0x104), [Row(map[], 0x100)], 0x108), 0x108)
  {
    var c := Context(0x100, 0x200, 1, 1, DOUBLE_WORD, false);
    var program := [RememberState, AdvanceLoc(4), UndefinedRule(1), AdvanceLoc(4), RestoreState];
    var m := Machine(Row(map[], 0x100), [], 0x100);
    var saved, rules := [Row(map[], 0x100)], map[1 := Undefined];
    var states := [
      m, Machine(saved[0], saved, 0x100), Machine(saved[0], saved, 0x104), Machine(Row(rules, 0x104), saved, 0x104),
      Machine(Row(rules, 0x104), saved, 0x108), Machine(saved[0], [], 0x108)];
    hide Exec, After, Run;
    ExecRemember(c, cie, m);
    ExecUndefined(c, cie, states[2]);
    ExecAdvance(c, cie, states[1], 4);
    ExecAdvance(c, cie, states[3], 4);
    ExecPop(c, cie, saved[0], states[4]);
    AfterEach(c, cie, program, m, states);
    assert forall j :: 0 <= j < |states| ==> states[j].pc <= 0x108;
    RunThatStops(c, cie, program, 0, m, 0x108, 5);
    RunThatStops(c, cie, program, 0, m, 0x104, 4);
  }

  lemma ExecRemember(c: Context, cie: Option<Rules>, m: Machine)
    requires Proper(c) && m.stack == [] && m.row.pcStart == m.pc
    ensures Exec(c, cie, RememberState, m) == Some(Machine(m.row, [m.row], m.pc))
  {
    assert m.row.(pcStart := m.pc) == m.row;
    assert m.stack + [m.row] == [m.row];
  }

  lemma ExecAdvance(c: Context, cie: Option<Rules>, m: Machine, delta: nat)
    requires Proper(c) && c.codeAlign == 1 && m.pc + delta < c.word
    ensures Exec(c, cie, AdvanceLoc(delta), m) == Some(Machine(m.row.(pcStart := m.pc), m.stack, m.pc + delta))
  {
  }

  lemma ExecUndefined(c: Context, cie: Option<Rules>, m: Machine)
    requires Proper(c) && m.row.rules == map[]
    ensures Exec(c, cie, UndefinedRule(1), m) == Some(Machine(Row(map[1 := Undefined], m.pc), m.stack, m.pc))
  {
  }

  lemma ExecPop(c: Context, cie: Option<Rules>, saved: Row, m: Machine)
    requires Proper(c) && m.stack == [saved]
    ensures Exec(c, cie, RestoreState, m) == Some(Machine(saved, [], m.pc))
  {
    assert m.stack[..|m.stack| - 1] == [];
  }

  /** A list of machines, each the one before after its instruction, is what the program goes through. */
  lemma {:induction false} AfterEach(c: Context, cie: Option<Rules>, program: seq<Instruction>, m: Machine, states: seq<Machine>)
    requires Proper(c) && 0 < |states| <= |program| + 1 && states[0] == m
    requires forall k :: 0 < k < |states| ==> Exec(c, cie, program[k - 1], states[k - 1]) == Some(states[k])
    ensures forall k :: 0 <= k < |states| ==> After(c, cie, program, k, m) == Some(states[k])
  {
    hide Exec;
    if |states| > 1 {
      var last := |states| - 1;
      AfterEach(c, cie, program, m, states[..last]);
      assert states[..last][last - 1] == states[last - 1];
      assert After(c, cie, program, last - 1, m) == Some(states[last - 1]);
    }
  }

  /** Between a remembered state and the restore that pops it, whatever is nested there leaves the states below alone. */
  lemma {:induction false} StackIsKept(c: Context, cie: Option<Rules>, program: seq<Instruction>, m: Machine, i: nat, k: nat)
    requires Proper(c) && i <= k <= |program| && After(c, cie, program, k, m).Some?
    requires DeepFrom(c, cie, program, m, i, k)
    ensures After(c, cie, program, i, m).Some?
    ensures After(c, cie, program, i, m).value.stack <= After(c, cie, program, k, m).value.stack
    decreases k
  {
    hide Rule;
    if i < k {
      StackIsKept(c, cie, program, m, i, k - 1);
      assert DeepAt(c, cie, program, m, k, i);
    }
  }

  /** After j instructions no fewer states are remembered than after i. */
  ghost predicate DeepAt(c: Context, cie: Option<Rules>, program: seq<Instruction>, m: Machine, j: nat, i: nat)
    requires Proper(c) && i <= j <= |program|
  {
    After(c, cie, program, j, m).Some? && After(c, cie, program, i, m).Some?
    ==> |After(c, cie, program, i, m).value.stack| <= |After(c, cie, program, j, m).value.stack|
  }

  ghost predicate DeepFrom(c: Context, cie: Option<Rules>, program: seq<Instruction>, m: Machine, i: nat, k: nat)
    requires Proper(c) && k <= |program|
  {
    forall j :: i <= j <= k ==> DeepAt(c, cie, program, m, j, i)
  }

  /** A restore brings back the rules its remember saved, with the location left where it was. */
  lemma RestoreMatchesRemember(c: Context, cie: Option<Rules>, program: seq<Instruction>, m: Machine, i: nat, k: nat)
    requires Proper(c) && i < k < |program| && program[i].RememberState? && program[k].RestoreState?
    requires After(c, cie, program, i, m).Some? && After(c, cie, program, k + 1, m).Some?
    requires DeepFrom(c, cie, program, m, i + 1, k)
    requires After(c, cie, program, i + 1, m).Some? && After(c, cie, program, k, m).Some?
    requires |After(c, cie, program, k, m).value.stack| == |After(c, cie, program, i + 1, m).value.stack|
    ensures var before, after := After(c, cie, program, i, m).value, After(c, cie, program, k + 1, m).value;
            && after.row.rules == before.row.rules && after.stack == before.stack
            && after.pc == After(c, cie, program, k, m).value.pc
  {
    hide Rule;
    StackIsKept(c, cie, program, m, i + 1, k);
  }

  /** Two lookups of one FDE that report the same end report the same row. */
  lemma SameEndSameRow(c: Context, cie: Option<Rules>, program: seq<Instruction>, m: Machine, p: nat, q: nat)
    requires Proper(c) && NeverBack(c, cie, program, m) && p < c.pcEnd && q < c.pcEnd
    requires Run(c, cie, program, 0, m, p).Found? && Run(c, cie, program, 0, m, q).Found?
    requires Run(c, cie, program, 0, m, p).pcEnd == Run(c, cie, program, 0, m, q).pcEnd
    ensures Run(c, cie, program, 0, m, p) == Run(c, cie, program, 0, m, q)
  {
    hide Exec, Run;
    var n := RunStops(c, cie, program, 0, m, p);
    var k := RunStops(c, cie, program, 0, m, q);
    RunThatStops(c, cie, program, 0, m, p, n);
    RunThatStops(c, cie, program, 0, m, q, k);
    assert k <= n by {
      assert n < k ==> GoesOn(c, cie, program, m, q, n);
    }
    assert n <= k by {
      assert k < n ==> GoesOn(c, cie, program, m, p, k);
    }
  }

  class DwarfCfa {
    const c: Context
    var curPc: nat
    var stack: seq<Row>
    var cieRules: Option<Rules>

    constructor (c: Context)
      ensures this.c == c && stack == [] && cieRules == None
    {
      this.c := c;
      curPc, stack, cieRules := 0, [], None;
    }

    /** The rules for `pc` that `program` gives from those already in `locs`. What was remembered and never restored stays
        on the stack for the next call. */
    method GetLocationInfo(pc: nat, program: seq<Instruction>, locs: Locations) returns (ok: bool, out: Locations)
      requires Proper(c)
      modifies this`curPc, this`stack
      ensures var start := Machine(Row(WithCie(locs.rules, cieRules), c.pcStart), old(stack), c.pcStart);
              match Run(c, cieRules, program, 0, start, pc)
              case Failed => !ok
              case Found(m, pcEnd) =>
                ok && out == Locations(m.row.rules, m.row.pcStart, pcEnd) && stack == m.stack && curPc == m.pc
    {
      hide Rule;
      out := locs.(rules := WithCie(locs.rules, cieRules), pcStart := c.pcStart);
      curPc := c.pcStart;
      var k := 0;
      ghost var start := Machine(Row(out.rules, out.pcStart), stack, curPc);
      while true
        invariant k <= |program|
        invariant Run(c, cieRules, program, k, Machine(Row(out.rules, out.pcStart), stack, curPc), pc)
               == Run(c, cieRules, program, 0, start, pc)
        decreases |program| - k
      {
        if curPc > pc {
          return true, out.(pcEnd := curPc);
        }
        if k == |program| {
          return true, out.(pcEnd := c.pcEnd);
        }
        out := out.(pcStart := curPc);
        match program[k] {
          case AdvanceLoc(delta) =>
            curPc := (curPc + delta * c.codeAlign) % c.word;
          case SetLoc(location) =>
            curPc := location % c.word;
          case RememberState =>
            stack := stack + [Row(out.rules, out.pcStart)];
          case RestoreState =>
            if stack != [] {
              var top := stack[|stack| - 1];
              out := out.(rules := top.rules, pcStart := top.pcStart);
              stack := stack[..|stack| - 1];
            }
          case _ =>
            var rules := Rule(c, cieRules, program[k], out.rules);
            if rules.None? {
              return false, out;
            }
            out := out.(rules := rules.value);
        }
        k := k + 1;
      }
    }
  }

  /** The rules of the CIE overwrite those already there. */
  function WithCie(rules: Rules, cie: Option<Rules>): Rules {
    if cie.Some? then rules + cie.value else rules
  }
}
