/** The stack machine of DWARF expressions (section 2.5 of DWARF 4). */
module DwarfExpression {
  import opened OrderedMap
  import opened DwarfMemory

  datatype Handler =
    | Illegal | NotImplemented | Nop
    | Push | Lit | Reg | Regx | Breg | Bregx
    | Dup | Drop | Over | Pick | Swap | Rot
    | Deref | DerefSize
    | Abs | Neg | Not | PlusUconst
    | Binary(f: BinaryOp)
    | Bra | Skip

  datatype BinaryOp = And | Or | Xor | Plus | Minus | Mul | Div | Mod | Shl | Shr | Shra | Eq | Ne | Lt | Le | Gt | Ge

  datatype Entry = Entry(handler: Handler, required: nat, operands: seq<Encoding>)

  /** What an opcode is, how many stack values it is checked to have, and its operands; addresses have `width` bytes. */
  function Table(op: Byte, width: nat): Entry {
    if 0x30 <= op < 0x50 then Entry(Lit, 0, [])
    else if 0x50 <= op < 0x70 then Entry(Reg, 0, [])
    else if 0x70 <= op < 0x90 then Entry(Breg, 0, [SlebNumber])
    else if 0x08 <= op <= 0x11 then Entry(Push, 0, [Constant(op)])
    else if 0x1a <= op <= 0x2e && BinaryOpOf(op).Some? then Entry(Binary(BinaryOpOf(op).value), 2, [])
    else match op
      case 0x03 => Entry(Push, 0, [Unsigned(width)])
      case 0x06 => Entry(Deref, 1, [])
      case 0x12 => Entry(Dup, 1, [])
      case 0x13 => Entry(Drop, 1, [])
      case 0x14 => Entry(Over, 2, [])
      case 0x15 => Entry(Pick, 0, [Unsigned(1)])
      case 0x16 => Entry(Swap, 2, [])
      case 0x17 => Entry(Rot, 3, [])
      case 0x18 => Entry(NotImplemented, 2, [])
      case 0x19 => Entry(Abs, 1, [])
      case 0x1f => Entry(Neg, 1, [])
      case 0x20 => Entry(Not, 1, [])
      case 0x23 => Entry(PlusUconst, 1, [UlebNumber])
      case 0x28 => Entry(Bra, 1, [Signed(2)])
      case 0x2f => Entry(Skip, 0, [Signed(2)])
      case 0x90 => Entry(Regx, 0, [UlebNumber])
      case 0x91 => Entry(NotImplemented, 0, [SlebNumber])
      case 0x92 => Entry(Bregx, 0, [UlebNumber, SlebNumber])
      case 0x93 => Entry(NotImplemented, 0, [UlebNumber])
      case 0x94 => Entry(DerefSize, 1, [Unsigned(1)])
      case 0x95 => Entry(NotImplemented, 0, [Unsigned(1)])
      case 0x96 => Entry(Nop, 0, [])
      case 0x97 => Entry(NotImplemented, 0, [])
      case 0x98 => Entry(NotImplemented, 0, [Unsigned(2)])
      case 0x99 => Entry(NotImplemented, 0, [Unsigned(4)])
      case 0x9a => Entry(NotImplemented, 0, [])
      case 0x9b => Entry(NotImplemented, 0, [])
      case 0x9c => Entry(NotImplemented, 0, [])
      case 0x9d => Entry(NotImplemented, 0, [UlebNumber, UlebNumber])
      case 0x9e => Entry(NotImplemented, 0, [UlebNumber])
      case 0x9f => Entry(NotImplemented, 1, [])
      case _ => Entry(Illegal, 0, [])
  }

  function Constant(op: Byte): Encoding
    requires 0x08 <= op <= 0x11
  {
    match op
    case 0x08 => Unsigned(1)
    case 0x09 => Signed(1)
    case 0x0a => Unsigned(2)
    case 0x0b => Signed(2)
    case 0x0c => Unsigned(4)
    case 0x0d => Signed(4)
    case 0x0e => Unsigned(8)
    case 0x0f => Signed(8)
    case 0x10 => UlebNumber
    case _ => SlebNumber
  }

  function BinaryOpOf(op: Byte): Option<BinaryOp> {
    match op
    case 0x1a => Some(And)
    case 0x1b => Some(Div)
    case 0x1c => Some(Minus)
    case 0x1d => Some(Mod)
    case 0x1e => Some(Mul)
    case 0x21 => Some(Or)
    case 0x22 => Some(Plus)
    case 0x24 => Some(Shl)
    case 0x25 => Some(Shr)
    case 0x26 => Some(Shra)
    case 0x27 => Some(Xor)
    case 0x29 => Some(Eq)
    case 0x2a => Some(Ge)
    case 0x2b => Some(Gt)
    case 0x2c => Some(Le)
    case 0x2d => Some(Lt)
    case 0x2e => Some(Ne)
    case _ => None
  }

  /** What an expression is evaluated against: the section that holds it, the memory it reads, the registers before the
      step, the width of an address in bytes, and what undefined operations give. */
  datatype Env = Env(code: seq<Byte>, ram: map<nat, Byte>, regs: seq<nat>, width: nat, u: Undefined, wild: (Byte, nat, nat) -> nat)
  {
    ghost predicate Proper() {
      width == 4 || width == 8
    }

    function Word(): (w: nat)
      ensures w > 1
    {
      if width == 4 then 0x1_0000_0000 else W64
    }
  }

  /** The stack, with its top first; whether a register was named; and the cursor. */
  datatype Machine = Machine(stack: seq<nat>, isRegister: bool, cursor: nat)

  function ReadLittleEndian(ram: map<nat, Byte>, addr: nat, n: nat): Option<nat>
    decreases n
  {
    if n == 0 then Some(0)
    else if addr !in ram then None
    else
      var rest := ReadLittleEndian(ram, addr + 1, n - 1);
      if rest.None? then None else Some(ram[addr] + 256 * rest.value)
  }

  function AsSigned(v: nat, word: nat): int {
    if v < word / 2 then v else v - word
  }

  function AsWord(v: int, word: nat): nat
    requires word > 0
  {
    v % word
  }

  /** Division that rounds toward zero. */
  function TruncDiv(a: int, b: int): int
    requires b != 0
  {
    if a >= 0 then a / b else -((-a) / b)
  }

  function Bitwise(f: BinaryOp, a: nat, b: nat): nat {
    if a == 0 && b == 0 then 0
    else
      var bit := match f
                 case And => if a % 2 == 1 && b % 2 == 1 then 1 else 0
                 case Or => if a % 2 == 1 || b % 2 == 1 then 1 else 0
                 case _ => if a % 2 != b % 2 then 1 else 0;
      bit + 2 * Bitwise(f, a / 2, b / 2)
  }

  /** The value below the top, and the top. */
  function Apply(env: Env, f: BinaryOp, op: Byte, a: nat, b: nat): Option<nat> {
    var word := env.Word();
    match f
    case And => Some(Bitwise(f, a, b))
    case Or => Some(Bitwise(f, a, b))
    case Xor => Some(Bitwise(f, a, b))
    case Plus => Some((a + b) % word)
    case Minus => Some(AsWord(a - b, word))
    case Mul => Some(a * b % word)
    case Div =>
      if AsSigned(b, word) == 0 then None
      else if a == word / 2 && b == word - 1 then Some(env.wild(op, a, b) % word)
      else Some(AsWord(TruncDiv(AsSigned(a, word), AsSigned(b, word)), word))
    case Mod => if b == 0 then None else Some(a % b)
    case Shl => Some(if b < 8 * env.width then AsWord(a * Pow2(b), word) else env.wild(op, a, b) % word)
    case Shr => Some(if b < 8 * env.width then AsWord(a / Pow2(b), word) else env.wild(op, a, b) % word)
    case Shra => Some(if b < 8 * env.width then AsWord(AsSigned(a, word) / Pow2(b), word) else env.wild(op, a, b) % word)
    case Eq => Some(if a == b then 1 else 0)
    case Ne => Some(if a != b then 1 else 0)
    case Lt => Some(if a < b then 1 else 0)
    case Le => Some(if a <= b then 1 else 0)
    case Gt => Some(if a > b then 1 else 0)
    case Ge => Some(if a >= b then 1 else 0)
  }

  /** The stack values and operands that a handler touches. */
  function Touches(h: Handler): nat {
    match h
    case Over => 2
    case Swap => 2
    case Binary(_) => 2
    case Rot => 3
    case Dup => 1
    case Drop => 1
    case Deref => 1
    case DerefSize => 1
    case Abs => 1
    case Neg => 1
    case Not => 1
    case PlusUconst => 1
    case Bra => 1
    case _ => 0
  }

  function Uses(h: Handler): nat {
    match h
    case Bregx => 2
    case Breg => 1
    case Regx => 1
    case Pick => 1
    case DerefSize => 1
    case PlusUconst => 1
    case Bra => 1
    case Skip => 1
    case _ => 0
  }

  /** The table checks for as much of the stack, and gives as many operands, as the handler touches. */
  lemma TableCoversHandlers(op: Byte, width: nat)
    ensures var e := Table(op, width); Touches(e.handler) <= e.required && Uses(e.handler) <= |e.operands|
  {
  }

  /** The displacement of a branch. */
  function Displacement(operand: nat): int {
    AsSigned(operand % 0x1_0000, 0x1_0000)
  }

  function PushAll(stack: seq<nat>, operands: seq<nat>): (r: seq<nat>)
    ensures |r| == |stack| + |operands|
    decreases |operands|
  {
    if operands == [] then stack else PushAll([operands[0]] + stack, operands[1..])
  }

  /** What the handler of `op` does once the operands are read. */
  function Handle(env: Env, h: Handler, op: Byte, operands: seq<nat>, m: Machine): Option<Machine>
    requires Touches(h) <= |m.stack| && Uses(h) <= |operands|
    requires (h.Lit? ==> op >= 0x30) && (h.Reg? ==> op >= 0x50) && (h.Breg? ==> op >= 0x70)
  {
    var s, word := m.stack, env.Word();
    match h
    case Illegal => None
    case NotImplemented => None
    case Nop => Some(m)
    case Push => Some(m.(stack := PushAll(s, operands)))
    case Lit => Some(m.(stack := [op - 0x30] + s))
    case Reg => Some(m.(stack := [op - 0x50] + s, isRegister := true))
    case Regx => Some(m.(stack := [operands[0]] + s, isRegister := true))
    case Breg =>
      if op - 0x70 >= |env.regs| then None else Some(m.(stack := [(env.regs[op - 0x70] + operands[0]) % word] + s))
    case Bregx =>
      if operands[0] >= |env.regs| then None else Some(m.(stack := [(env.regs[operands[0]] + operands[1]) % word] + s))
    case Dup => Some(m.(stack := [s[0]] + s))
    case Drop => Some(m.(stack := s[1..]))
    case Over => Some(m.(stack := [s[1]] + s))
    case Pick => if operands[0] >= |s| then None else Some(m.(stack := [s[operands[0]]] + s))
    case Swap => Some(m.(stack := [s[1], s[0]] + s[2..]))
    case Rot => Some(m.(stack := [s[1], s[2], s[0]] + s[3..]))
    case Deref =>
      var v := ReadLittleEndian(env.ram, s[0], env.width);
      if v.None? then None else Some(m.(stack := [v.value] + s[1..]))
    case DerefSize =>
      if operands[0] > env.width || operands[0] == 0 then None
      else
        var v := ReadLittleEndian(env.ram, s[0], operands[0]);
        if v.None? then None else Some(m.(stack := [v.value] + s[1..]))
    case Abs => Some(m.(stack := [Absolute(env, op, s[0])] + s[1..]))
    case Neg => Some(m.(stack := [Negative(env, op, s[0])] + s[1..]))
    case Not => Some(m.(stack := [AsWord(word - 1 - s[0], word)] + s[1..]))
    case PlusUconst => Some(m.(stack := [(s[0] + operands[0]) % word] + s[1..]))
    case Binary(f) =>
      var v := Apply(env, f, op, s[1], s[0]);
      if v.None? then None else Some(m.(stack := [v.value] + s[2..]))
    // On zero the displacement is taken backwards.
    case Bra =>
      var d := Displacement(operands[0]);
      Some(m.(stack := s[1..], cursor := if s[0] != 0 then (m.cursor + d) % W64 else (m.cursor - d) % W64))
    case Skip => Some(m.(cursor := (m.cursor + Displacement(operands[0])) % W64))
  }

  function Negative(env: Env, op: Byte, v: nat): nat {
    if v == env.Word() / 2 then env.wild(op, v, 0) % env.Word() else AsWord(-AsSigned(v, env.Word()), env.Word())
  }

  function Absolute(env: Env, op: Byte, v: nat): nat {
    if AsSigned(v, env.Word()) < 0 then Negative(env, op, v) else v
  }

  /** The operands from `off` on, cut to words, and the place after them. */
  function ReadOperands(env: Env, code: seq<Byte>, off: nat, encodings: seq<Encoding>): (r: Option<(seq<nat>, nat)>)
    requires Readable(encodings)
    ensures r.Some? ==> |r.value.0| == |encodings|
    decreases |encodings|
  {
    if encodings == [] then Some(([], off))
    else
      var first := Number(env.u, code, off, encodings[0]);
      if first.None? then None
      else
        var rest := ReadOperands(env, code, first.value.1, encodings[1..]);
        if rest.None? then None else Some(([first.value.0 % env.Word()] + rest.value.0, rest.value.1))
  }

  predicate Readable(encodings: seq<Encoding>) {
    forall i :: 0 <= i < |encodings| ==>
      (encodings[i].Unsigned? ==> 0 < encodings[i].width <= 8) && (encodings[i].Signed? ==> 0 < encodings[i].width <= 8)
  }

  lemma TableReadable(op: Byte, width: nat)
    requires width == 4 || width == 8
    ensures Readable(Table(op, width).operands)
    ensures var h := Table(op, width).handler; (h.Lit? ==> op >= 0x30) && (h.Reg? ==> op >= 0x50) && (h.Breg? ==> op >= 0x70)
  {
  }

  datatype Step = Step(machine: Machine, op: Byte, operands: seq<nat>)

  function Decoded(env: Env, m: Machine): Option<Step>
    requires env.Proper()
  {
    if m.cursor >= |env.code| then None
    else
      var op := env.code[m.cursor];
      var entry := Table(op, env.width);
      if entry.handler.Illegal? || |m.stack| < entry.required then None
      else
        TableCoversHandlers(op, env.width);
        TableReadable(op, env.width);
        var operands := ReadOperands(env, env.code, m.cursor + 1, entry.operands);
        if operands.None? then None
        else
          var m' := Handle(env, entry.handler, op, operands.value.0, m.(cursor := operands.value.1));
          if m'.None? then None else Some(Step(m'.value, op, operands.value.0))
  }

  const MAX_ITERATIONS := 1000

  function Loop(env: Env, end: nat, m: Machine, iterations: nat): Option<Machine>
    requires env.Proper() && iterations <= MAX_ITERATIONS
    decreases MAX_ITERATIONS - iterations
  {
    if m.cursor >= end then Some(m)
    else
      var step := Decoded(env, m);
      if step.None? || iterations == MAX_ITERATIONS then None else Loop(env, end, step.value.machine, iterations + 1)
  }

  function Start(start: nat): Machine {
    Machine([], false, start)
  }

  /** The constant and the drop that mark a dex pc. */
  predicate MarksDexPc(first: Step, second: Step) {
    first.op == 0x0c && first.operands != [] && first.operands[|first.operands| - 1] == 0x31584544 && second.op == 0x13
  }

  datatype Result = Result(machine: Machine, dexPc: bool)

  function Evaluated(env: Env, start: nat, end: nat): Option<Result>
    requires env.Proper()
  {
    if start >= end then Some(Result(Start(start), false))
    else
      var first := Decoded(env, Start(start));
      if first.None? then None
      else if first.value.machine.cursor >= end then Some(Result(first.value.machine, false))
      else
        var second := Decoded(env, first.value.machine);
        if second.None? then None
        else
          var last := Loop(env, end, second.value.machine, 2);
          if last.None? then None else Some(Result(last.value, MarksDexPc(first.value, second.value)))
  }

  /** The machine after n decodes from `m`, whatever the end. */
  function After(env: Env, m: Machine, n: nat): Option<Machine>
    requires env.Proper()
    decreases n
  {
    if n == 0 then Some(m)
    else
      var step := Decoded(env, m);
      if step.None? then None else After(env, step.value.machine, n - 1)
  }

  /** Before the end is reached, the machine goes on. */
  ghost predicate BeforeEnd(env: Env, m: Machine, end: nat, j: nat)
    requires env.Proper()
  {
    After(env, m, j).Some? && After(env, m, j).value.cursor < end
  }

  /** The machine reaches the end after exactly n decodes. */
  ghost predicate Halts(env: Env, m: Machine, end: nat, n: nat)
    requires env.Proper()
  {
    After(env, m, n).Some? && After(env, m, n).value.cursor >= end && forall j: nat :: j < n ==> BeforeEnd(env, m, end, j)
  }

  lemma HaltsAfterOne(env: Env, m: Machine, end: nat, n: nat)
    requires env.Proper() && m.cursor < end && Decoded(env, m).Some?
    ensures Halts(env, m, end, n) <==> n > 0 && Halts(env, Decoded(env, m).value.machine, end, n - 1)
  {
    hide Decoded;
    var next := Decoded(env, m).value.machine;
    if n > 0 && Halts(env, next, end, n - 1) {
      forall j: nat | j < n
        ensures BeforeEnd(env, m, end, j)
      {
        if j > 0 {
          assert BeforeEnd(env, next, end, j - 1);
        }
      }
    }
    if Halts(env, m, end, n) {
      forall j: nat | j < n - 1
        ensures BeforeEnd(env, next, end, j)
      {
        assert BeforeEnd(env, m, end, j + 1);
      }
    }
  }

  /** The loop gives a machine exactly when it reaches the end within what is left of the iterations. */
  lemma {:induction false} LoopHalts(env: Env, end: nat, m: Machine, iterations: nat, n: nat)
    requires env.Proper() && iterations <= MAX_ITERATIONS && Halts(env, m, end, n)
    ensures Loop(env, end, m, iterations) == if iterations + n <= MAX_ITERATIONS then After(env, m, n) else None
    decreases MAX_ITERATIONS - iterations
  {
    hide Decoded;
    if m.cursor < end {
      assert n > 0;
      assert Decoded(env, m).Some?;
      HaltsAfterOne(env, m, end, n);
      if iterations < MAX_ITERATIONS {
        LoopHalts(env, end, Decoded(env, m).value.machine, iterations + 1, n - 1);
      }
    } else {
      assert n > 0 ==> BeforeEnd(env, m, end, 0);
    }
  }

  lemma {:induction false} LoopFinds(env: Env, end: nat, m: Machine, iterations: nat) returns (n: nat)
    requires env.Proper() && iterations <= MAX_ITERATIONS && Loop(env, end, m, iterations).Some?
    ensures iterations + n <= MAX_ITERATIONS && Halts(env, m, end, n)
    decreases MAX_ITERATIONS - iterations
  {
    hide Decoded;
    if m.cursor >= end {
      n := 0;
    } else {
      n := LoopFinds(env, end, Decoded(env, m).value.machine, iterations + 1);
      n := n + 1;
      HaltsAfterOne(env, m, end, n);
    }
  }

  /** Whatever the branches do, evaluation succeeds exactly when the machine reaches the end within 1000 decodes, and then
      with the machine of that moment. */
  lemma EvalHalts(env: Env, start: nat, end: nat, n: nat)
    requires env.Proper() && Halts(env, Start(start), end, n)
    ensures Evaluated(env, start, end).Some? <==> n <= MAX_ITERATIONS
    ensures n <= MAX_ITERATIONS ==> Some(Evaluated(env, start, end).value.machine) == After(env, Start(start), n)
  {
    hide Decoded, Loop;
    var m := Start(start);
    if n == 0 {
      assert start >= end;
    } else {
      assert BeforeEnd(env, m, end, 0) && Decoded(env, m).Some?;
      HaltsAfterOne(env, m, end, n);
      var m1 := Decoded(env, m).value.machine;
      if n > 1 {
        assert BeforeEnd(env, m1, end, 0) && Decoded(env, m1).Some?;
        HaltsAfterOne(env, m1, end, n - 1);
        LoopHalts(env, end, Decoded(env, m1).value.machine, 2, n - 2);
      }
    }
  }

  lemma EvalFinds(env: Env, start: nat, end: nat) returns (n: nat)
    requires env.Proper() && Evaluated(env, start, end).Some?
    ensures n <= MAX_ITERATIONS && Halts(env, Start(start), end, n)
  {
    hide Decoded, Loop;
    var m := Start(start);
    n := 0;
    if start < end {
      var m1 := Decoded(env, m).value.machine;
      if m1.cursor < end {
        n := LoopFinds(env, end, Decoded(env, m1).value.machine, 2);
        n := n + 1;
        HaltsAfterOne(env, m1, end, n);
      }
      n := n + 1;
      HaltsAfterOne(env, m, end, n);
    }
  }

  lemma HandlePushesOne(env: Env, h: Handler, op: Byte, operands: seq<nat>, m: Machine)
    requires Touches(h) <= |m.stack| && Uses(h) <= |operands| && (h.Push? ==> |operands| == 1)
    requires (h.Lit? ==> op >= 0x30) && (h.Reg? ==> op >= 0x50) && (h.Breg? ==> op >= 0x70)
    ensures Handle(env, h, op, operands, m).Some? ==> |Handle(env, h, op, operands, m).value.stack| <= |m.stack| + 1
  {
  }

  lemma PushHasOneOperand(op: Byte, width: nat)
    ensures Table(op, width).handler.Push? ==> |Table(op, width).operands| == 1
  {
  }

  lemma DecodePushesOne(env: Env, m: Machine)
    requires env.Proper() && Decoded(env, m).Some?
    ensures |Decoded(env, m).value.machine.stack| <= |m.stack| + 1
  {
    hide Handle, Table, ReadOperands, Touches, Uses;
    var op := env.code[m.cursor];
    var entry := Table(op, env.width);
    TableCoversHandlers(op, env.width);
    TableReadable(op, env.width);
    PushHasOneOperand(op, env.width);
    var operands := ReadOperands(env, env.code, m.cursor + 1, entry.operands).value;
    HandlePushesOne(env, entry.handler, op, operands.0, m.(cursor := operands.1));
  }

  /** The stack is never deeper than the number of decodes. */
  lemma {:induction false} DepthIsBounded(env: Env, m: Machine, n: nat)
    requires env.Proper() && After(env, m, n).Some?
    ensures |After(env, m, n).value.stack| <= |m.stack| + n
    decreases n
  {
    hide Decoded;
    if n > 0 {
      DecodePushesOne(env, m);
      DepthIsBounded(env, Decoded(env, m).value.machine, n - 1);
    }
  }

  // Programs without branches, as lists of instructions.

  /** An opcode and the bytes of its operands. */
  datatype Instr = Instr(op: Byte, bytes: seq<Byte>)

  /** The bytes are exactly the operands of the opcode. */
  ghost predicate Whole(env: Env, i: Instr)
    requires env.Proper()
  {
    TableReadable(i.op, env.width);
    var operands := ReadOperands(env, i.bytes, 0, Table(i.op, env.width).operands);
    operands.Some? && operands.value.1 == |i.bytes|
  }

  function OperandsOf(env: Env, i: Instr): (r: seq<nat>)
    requires env.Proper() && Whole(env, i)
    ensures |r| == |Table(i.op, env.width).operands|
  {
    TableReadable(i.op, env.width);
    ReadOperands(env, i.bytes, 0, Table(i.op, env.width).operands).value.0
  }

  ghost predicate Straight(env: Env, i: Instr)
    requires env.Proper()
  {
    Whole(env, i) && !Table(i.op, env.width).handler.Bra? && !Table(i.op, env.width).handler.Skip?
  }

  /** What one instruction means, wherever it stands. */
  function Effect(env: Env, i: Instr, m: Machine): Option<Machine>
    requires env.Proper() && Whole(env, i)
  {
    var entry := Table(i.op, env.width);
    if entry.handler.Illegal? || |m.stack| < entry.required then None
    else
      TableCoversHandlers(i.op, env.width);
      TableReadable(i.op, env.width);
      Handle(env, entry.handler, i.op, OperandsOf(env, i), m.(cursor := m.cursor + 1 + |i.bytes|))
  }

  function Assembled(instrs: seq<Instr>): seq<Byte> {
    if instrs == [] then [] else [instrs[0].op] + instrs[0].bytes + Assembled(instrs[1..])
  }

  ghost predicate AllStraight(env: Env, instrs: seq<Instr>)
    requires env.Proper()
  {
    forall i :: i in instrs ==> Straight(env, i)
  }

  function Meaning(env: Env, instrs: seq<Instr>, m: Machine): Option<Machine>
    requires env.Proper() && AllStraight(env, instrs)
    decreases |instrs|
  {
    if instrs == [] then Some(m)
    else
      assert Straight(env, instrs[0]);
      var m' := Effect(env, instrs[0], m);
      if m'.None? then None else Meaning(env, instrs[1..], m'.value)
  }

  /** The meaning of two lists after each other is the one meaning after the other. */
  lemma {:induction false} MeaningComposes(env: Env, a: seq<Instr>, b: seq<Instr>, m: Machine)
    requires env.Proper() && AllStraight(env, a) && AllStraight(env, b)
    ensures AllStraight(env, a + b)
    ensures Meaning(env, a + b, m) == if Meaning(env, a, m).None? then None else Meaning(env, b, Meaning(env, a, m).value)
    decreases |a|
  {
    hide Effect, Whole;
    if a == [] {
      assert a + b == b;
    } else {
      assert Straight(env, a[0]);
      assert (a + b)[1..] == a[1..] + b;
      if Effect(env, a[0], m).Some? {
        MeaningComposes(env, a[1..], b, Effect(env, a[0], m).value);
      }
    }
  }

  lemma StraightKeepsCursor(env: Env, i: Instr, m: Machine)
    requires env.Proper() && Straight(env, i) && Effect(env, i, m).Some?
    ensures Effect(env, i, m).value.cursor == m.cursor + 1 + |i.bytes|
  {
    hide Table, ReadOperands, Apply;
    TableCoversHandlers(i.op, env.width);
    TableReadable(i.op, env.width);
  }

  lemma {:induction false} OperandsElsewhere(env: Env, bytes: seq<Byte>, off: nat, encodings: seq<Encoding>, code: seq<Byte>, at: nat)
    requires Readable(encodings) && Holds(code, at, bytes)
    requires ReadOperands(env, bytes, off, encodings).Some? && ReadOperands(env, bytes, off, encodings).value.1 <= |bytes|
    ensures var r := ReadOperands(env, bytes, off, encodings).value; ReadOperands(env, code, at + off, encodings) == Some((r.0, at + r.1))
    decreases |encodings|
  {
    hide Number;
    if encodings != [] {
      var first := Number(env.u, bytes, off, encodings[0]).value;
      NumberElsewhere(env.u, bytes, off, encodings[0], code, at);
      OperandsElsewhere(env, bytes, first.1, encodings[1..], code, at);
    }
  }

  /** Decoding the bytes of an instruction has the effect of the instruction. */
  lemma DecodeAssembled(env: Env, i: Instr, m: Machine)
    requires env.Proper() && Whole(env, i) && Holds(env.code, m.cursor, [i.op] + i.bytes)
    ensures Decoded(env, m) == if Effect(env, i, m).None? then None else Some(Step(Effect(env, i, m).value, i.op, OperandsOf(env, i)))
  {
    hide Table, Handle, ReadOperands, Touches, Uses;
    TableReadable(i.op, env.width);
    TableCoversHandlers(i.op, env.width);
    var code := [i.op] + i.bytes;
    assert env.code[m.cursor..m.cursor + |code|] == code;
    assert env.code[m.cursor] == code[0];
    assert Holds(env.code, m.cursor + 1, i.bytes) by {
      assert code[1..] == i.bytes;
      assert env.code[m.cursor..m.cursor + |code|][1..] == env.code[m.cursor + 1..m.cursor + 1 + |i.bytes|];
    }
    OperandsElsewhere(env, i.bytes, 0, Table(i.op, env.width).operands, env.code, m.cursor + 1);
  }

  lemma HoldsParts(code: seq<Byte>, at: nat, a: seq<Byte>, b: seq<Byte>)
    requires Holds(code, at, a + b)
    ensures Holds(code, at, a) && Holds(code, at + |a|, b)
  {
    var all := code[at..at + |a + b|];
    assert all[..|a|] == code[at..at + |a|] && (a + b)[..|a|] == a;
    assert all[|a|..] == code[at + |a|..at + |a| + |b|] && (a + b)[|a|..] == b;
  }

  /** The first instruction of an assembled list, and what is left. */
  lemma FirstAssembled(env: Env, instrs: seq<Instr>, m: Machine)
    requires env.Proper() && AllStraight(env, instrs) && instrs != [] && Holds(env.code, m.cursor, Assembled(instrs))
    ensures Straight(env, instrs[0])
    ensures var effect := Effect(env, instrs[0], m);
            Decoded(env, m) == if effect.None? then None else Some(Step(effect.value, instrs[0].op, OperandsOf(env, instrs[0])))
    ensures Effect(env, instrs[0], m).Some? ==>
              var next := Effect(env, instrs[0], m).value;
              && Holds(env.code, next.cursor, Assembled(instrs[1..]))
              && next.cursor + |Assembled(instrs[1..])| == m.cursor + |Assembled(instrs)|
    ensures 0 < |Assembled(instrs)|
  {
    hide Effect, Decoded, Whole, OperandsOf, Holds;
    var i := instrs[0];
    assert Straight(env, i);
    hide Straight;
    HoldsParts(env.code, m.cursor, [i.op] + i.bytes, Assembled(instrs[1..]));
    DecodeAssembled(env, i, m);
    if Effect(env, i, m).Some? {
      StraightKeepsCursor(env, i, m);
    }
  }

  lemma {:induction false} LoopMeans(env: Env, instrs: seq<Instr>, m: Machine, iterations: nat)
    requires env.Proper() && AllStraight(env, instrs) && Holds(env.code, m.cursor, Assembled(instrs)) && iterations <= MAX_ITERATIONS
    ensures Loop(env, m.cursor + |Assembled(instrs)|, m, iterations)
         == if iterations + |instrs| <= MAX_ITERATIONS then Meaning(env, instrs, m) else None
    decreases |instrs|
  {
    hide Effect, Decoded, Whole, Holds;
    if instrs != [] {
      FirstAssembled(env, instrs, m);
      if Effect(env, instrs[0], m).Some? && iterations < MAX_ITERATIONS {
        LoopMeans(env, instrs[1..], Effect(env, instrs[0], m).value, iterations + 1);
      }
    }
  }

  /** Evaluating the bytes of a list of instructions without branches gives the meaning of the list, if it has at most
      1000 instructions, and fails if it has more; only a list that starts with the marking constant and a drop is taken
      for a dex pc. */
  lemma EvalMeans(env: Env, instrs: seq<Instr>, start: nat)
    requires env.Proper() && AllStraight(env, instrs) && Holds(env.code, start, Assembled(instrs))
    ensures var result := Evaluated(env, start, start + |Assembled(instrs)|);
            var meaning := if |instrs| <= MAX_ITERATIONS then Meaning(env, instrs, Start(start)) else None;
            && result.Some? == meaning.Some?
            && (result.Some? ==> result.value.machine == meaning.value)
            && (result.Some? ==> (result.value.dexPc <==> |instrs| >= 2 && DexPattern(env, instrs[0], instrs[1])))
  {
    hide Effect, Decoded, Whole, Holds, Loop, OperandsOf;
    var m := Start(start);
    if instrs != [] {
      FirstAssembled(env, instrs, m);
      var effect := Effect(env, instrs[0], m);
      var rest := instrs[1..];
      if effect.Some? && rest != [] {
        FirstAssembled(env, rest, effect.value);
        var effect2 := Effect(env, rest[0], effect.value);
        if effect2.Some? {
          LoopMeans(env, rest[1..], effect2.value, 2);
        }
      }
    }
  }

  ghost predicate DexPattern(env: Env, i: Instr, j: Instr)
    requires env.Proper()
  {
    Whole(env, i) && i.op == 0x0c && OperandsOf(env, i) == [0x31584544] && j.op == 0x13
  }

  // Laws of the operations.

  /** Two handlers after each other, neither of which has operands. */
  function Both(env: Env, g: Handler, h: Handler, m: Machine): Option<Machine>
    requires Touches(g) <= |m.stack| && Uses(g) == 0 && Uses(h) == 0 && !g.Lit? && !g.Reg? && !g.Breg? && !h.Lit? && !h.Reg? && !h.Breg?
  {
    var m' := Handle(env, g, 0, [], m);
    if m'.None? || |m'.value.stack| < Touches(h) then None else Handle(env, h, 0, [], m'.value)
  }

  /** Swapping twice does nothing. */
  lemma SwapTwice(env: Env, m: Machine)
    requires |m.stack| >= 2
    ensures Both(env, Swap, Swap, m) == Some(m)
  {
    hide Apply, Pow2, ReadLittleEndian, PushAll;
    var s := m.stack;
    var swapped := [s[1], s[0]] + s[2..];
    assert swapped[2..] == s[2..] && [swapped[1], swapped[0]] + swapped[2..] == s;
  }

  /** Rotating three times does nothing. */
  lemma RotThrice(env: Env, m: Machine)
    requires |m.stack| >= 3
    ensures var two := Both(env, Rot, Rot, m); two.Some? && Both(env, Nop, Rot, two.value) == Some(m)
  {
    hide Apply, Pow2, ReadLittleEndian, PushAll;
    var s := m.stack;
    var once := [s[1], s[2], s[0]] + s[3..];
    var twice := [once[1], once[2], once[0]] + once[3..];
    assert once[3..] == s[3..] && twice[3..] == s[3..];
    assert [twice[1], twice[2], twice[0]] + twice[3..] == s;
  }

  /** Copying a value and dropping it does nothing, and the copies are those that picking makes. */
  lemma CopyThenDrop(env: Env, m: Machine)
    requires m.stack != []
    ensures Both(env, Dup, Drop, m) == Some(m) && Handle(env, Pick, 0, [0], m) == Handle(env, Dup, 0, [], m)
    ensures |m.stack| > 1 ==> Both(env, Over, Drop, m) == Some(m) && Handle(env, Pick, 0, [1], m) == Handle(env, Over, 0, [], m)
  {
    hide Apply, Pow2, ReadLittleEndian, PushAll;
    var s := m.stack;
    assert ([s[0]] + s)[1..] == s;
    if |s| > 1 {
      assert ([s[1]] + s)[1..] == s;
    }
  }

  /** Subtracting undoes adding. */
  lemma MinusUndoesPlus(env: Env, op: Byte, a: nat, b: nat)
    requires a < env.Word() && b < env.Word()
    ensures Apply(env, Minus, op, Apply(env, Plus, op, a, b).value, b) == Some(a)
  {
    hide Bitwise, Pow2;
    if env.width == 4 {
      assert ((a + b) % 0x1_0000_0000 - b) % 0x1_0000_0000 == a;
    } else {
      assert ((a + b) % W64 - b) % W64 == a;
    }
  }

  /** Negating gives the complement to the word, but for the smallest number; so it undoes itself. */
  lemma NegativeIs(env: Env, op: Byte, a: nat)
    requires a < env.Word() && a != env.Word() / 2
    ensures Negative(env, op, a) == if a == 0 then 0 else env.Word() - a
  {
    if env.width == 4 {
      Complement(a, 0x1_0000_0000);
    } else {
      Complement(a, W64);
    }
  }

  lemma Complement(a: nat, w: nat)
    requires a < w && a != w / 2 && (w == 0x1_0000_0000 || w == W64)
    ensures AsWord(-AsSigned(a, w), w) == if a == 0 then 0 else w - a
  {
    hide AsWord;
    WordOf(-AsSigned(a, w), w);
  }

  lemma WordOf(v: int, w: nat)
    requires 0 - w <= v < w && (w == 0x1_0000_0000 || w == W64)
    ensures AsWord(v, w) == if v < 0 then v + w else v
  {
    if w == W64 {
      assert v < 0 ==> (v + W64) % W64 == v + W64;
    } else {
      assert v < 0 ==> (v + 0x1_0000_0000) % 0x1_0000_0000 == v + 0x1_0000_0000;
    }
  }

  lemma TruncDivRounds(a: int, b: int)
    requires b != 0
    ensures RoundsToZero(a, b, TruncDiv(a, b))
  {
    if a < 0 {
      assert b * -((-a) / b) == -(b * ((-a) / b));
    }
  }

  /** The operations do and undo as they should: swapping twice, rotating three times, copying and dropping, and adding and
      subtracting do nothing; negating gives the two's complement, but for the smallest number; signed division rounds
      toward zero. */
  lemma OperationLaws(env: Env, op: Byte, m: Machine, a: nat, b: nat)
    requires a < env.Word() && b < env.Word()
    ensures |m.stack| >= 2 ==> Both(env, Swap, Swap, m) == Some(m) && Both(env, Over, Drop, m) == Some(m)
    ensures |m.stack| >= 3 ==> var two := Both(env, Rot, Rot, m); two.Some? && Both(env, Nop, Rot, two.value) == Some(m)
    ensures m.stack != [] ==> Both(env, Dup, Drop, m) == Some(m) && Handle(env, Pick, 0, [0], m) == Handle(env, Dup, 0, [], m)
    ensures Apply(env, Minus, op, Apply(env, Plus, op, a, b).value, b) == Some(a)
    ensures a != env.Word() / 2 ==> Negative(env, op, a) == if a == 0 then 0 else env.Word() - a
    ensures b != 0 && !(a == env.Word() / 2 && b == env.Word() - 1) ==>
              var x, y := AsSigned(a, env.Word()), AsSigned(b, env.Word());
              exists q :: Apply(env, Div, op, a, b) == Some(AsWord(q, env.Word())) && RoundsToZero(x, y, q)
  {
    hide Handle, Apply, Negative, Both;
    if |m.stack| >= 2 {
      SwapTwice(env, m);
    }
    if |m.stack| >= 3 {
      RotThrice(env, m);
    }
    if m.stack != [] {
      CopyThenDrop(env, m);
    }
    MinusUndoesPlus(env, op, a, b);
    if a != env.Word() / 2 {
      NegativeIs(env, op, a);
    }
    if b != 0 && !(a == env.Word() / 2 && b == env.Word() - 1) {
      DivRounds(env, op, a, b);
    }
  }

  /** The quotient leaves a remainder smaller than the divisor and with the sign of the dividend. */
  predicate RoundsToZero(a: int, b: int, q: int) {
    var r := a - b * q;
    (if a >= 0 then 0 <= r else r <= 0) && (if b > 0 then 0 - b < r < b else b < r < 0 - b)
  }

  lemma DivRounds(env: Env, op: Byte, a: nat, b: nat)
    requires a < env.Word() && 0 < b < env.Word() && !(a == env.Word() / 2 && b == env.Word() - 1)
    ensures var x, y := AsSigned(a, env.Word()), AsSigned(b, env.Word());
            exists q :: Apply(env, Div, op, a, b) == Some(AsWord(q, env.Word())) && RoundsToZero(x, y, q)
  {
    var x, y := AsSigned(a, env.Word()), AsSigned(b, env.Word());
    TruncDivRounds(x, y);
    assert Apply(env, Div, op, a, b) == Some(AsWord(TruncDiv(x, y), env.Word())) by {
      hide Bitwise, Pow2, TruncDiv;
    }
  }

  function Bit(v: nat, k: nat): bool {
    if k == 0 then v % 2 == 1 else Bit(v / 2, k - 1)
  }

  /** The bitwise operations work on each bit by itself. */
  lemma {:induction false} BitwiseBits(f: BinaryOp, a: nat, b: nat, k: nat)
    requires f.And? || f.Or? || f.Xor?
    ensures Bit(Bitwise(f, a, b), k) ==
            match f
            case And => Bit(a, k) && Bit(b, k)
            case Or => Bit(a, k) || Bit(b, k)
            case _ => Bit(a, k) != Bit(b, k)
    decreases k
  {
    var rest := Bitwise(f, a / 2, b / 2);
    if a == 0 && b == 0 {
      ZeroBits(k);
    } else if k > 0 {
      BitwiseBits(f, a / 2, b / 2, k - 1);
      assert Bitwise(f, a, b) / 2 == rest;
    }
  }

  lemma {:induction false} ZeroBits(k: nat)
    ensures !Bit(0, k)
  {
    if k > 0 {
      ZeroBits(k - 1);
    }
  }

  // Where the code departs from the standard.

  /** A branch on zero goes on with the next operation, as the standard has it, only if its displacement is zero. */
  lemma BranchOnZero(env: Env, op: Byte, operand: nat, m: Machine)
    requires m.stack != [] && m.stack[0] == 0 && m.cursor < W64
    ensures Handle(env, Bra, op, [operand], m).value.cursor == m.cursor <==> Displacement(operand) == 0
  {
    var d := Displacement(operand);
    assert -0x8000 <= d < 0x8000;
  }

  /** Comparing words without sign orders them as signed numbers exactly when their signs agree. */
  lemma ComparisonSigns(env: Env, op: Byte, a: nat, b: nat)
    requires a < env.Word() && b < env.Word()
    ensures Apply(env, Lt, op, a, b) == Some(if AsSigned(a, env.Word()) < AsSigned(b, env.Word()) then 1 else 0) <==>
              (a < env.Word() / 2 <==> b < env.Word() / 2)
    ensures Apply(env, Le, op, a, b) == Some(if AsSigned(a, env.Word()) <= AsSigned(b, env.Word()) then 1 else 0) <==>
              (a < env.Word() / 2 <==> b < env.Word() / 2)
    ensures Apply(env, Gt, op, a, b) == Some(if AsSigned(a, env.Word()) > AsSigned(b, env.Word()) then 1 else 0) <==>
              (a < env.Word() / 2 <==> b < env.Word() / 2)
    ensures Apply(env, Ge, op, a, b) == Some(if AsSigned(a, env.Word()) >= AsSigned(b, env.Word()) then 1 else 0) <==>
              (a < env.Word() / 2 <==> b < env.Word() / 2)
  {
    hide Bitwise, Pow2;
  }

  /** The value an expression gives to a register, and whether it is a dex pc. */
  function Value(env: Env, start: nat, end: nat): Option<(nat, bool)>
    requires env.Proper()
  {
    var result := Evaluated(env, start, end);
    if result.None? || result.value.machine.stack == [] || result.value.machine.isRegister then None
    else Some((result.value.machine.stack[0], result.value.dexPc))
  }

  /** Reading `all` comes down to the values read and those still to be read from `off` on. */
  ghost predicate Remain(env: Env, off: nat, encodings: seq<Encoding>, read: seq<nat>, all: Option<(seq<nat>, nat)>)
    requires Readable(encodings)
  {
    match ReadOperands(env, env.code, off, encodings)
    case None => all.None?
    case Some((rest, next)) => all.Some? && all.value.0 == read + rest && all.value.1 == next
  }

  lemma RemainAtFirst(env: Env, off: nat, encodings: seq<Encoding>)
    requires Readable(encodings)
    ensures Remain(env, off, encodings, [], ReadOperands(env, env.code, off, encodings))
  {
    hide ReadOperands;
    if ReadOperands(env, env.code, off, encodings).Some? {
      var all := ReadOperands(env, env.code, off, encodings).value.0;
      assert [] + all == all;
    }
  }

  lemma RemainAfterOne(env: Env, off: nat, encodings: seq<Encoding>, read: seq<nat>, all: Option<(seq<nat>, nat)>)
    requires Readable(encodings) && encodings != [] && Remain(env, off, encodings, read, all)
    ensures match Number(env.u, env.code, off, encodings[0])
            case None => all.None?
            case Some((v, next)) => Remain(env, next, encodings[1..], read + [v % env.Word()], all)
  {
    hide Number;
  }

  lemma RemainAtLast(env: Env, off: nat, read: seq<nat>, all: Option<(seq<nat>, nat)>)
    requires Remain(env, off, [], read, all)
    ensures all == Some((read, off))
  {
    assert read + [] == read;
  }

  class DwarfOp {
    const env: Env
    const memory: Cursor
    var stack: seq<nat>
    var curOp: Byte
    var operands: seq<nat>
    var isRegister: bool
    var dexPcSet: bool
    // How often Decode has been called by the evaluation under way.
    ghost var decodes: nat

    ghost predicate Valid()
      reads this, memory
    {
      env.Proper() && memory.mem == env.code && memory.u == env.u
    }

    constructor (env: Env)
      requires env.Proper()
      ensures Valid() && this.env == env && fresh(memory)
    {
      this.env := env;
      memory := new Cursor(env.code, env.u);
      stack, curOp, operands, isRegister, dexPcSet, decodes := [], 0, [], false, false, 0;
    }

    ghost function State(): Machine
      reads this, memory
    {
      Machine(stack, isRegister, memory.curOffset)
    }

    method ReadOperandList(encodings: seq<Encoding>) returns (values: Option<seq<nat>>)
      requires Valid() && Readable(encodings)
      modifies memory
      ensures Valid()
      ensures match ReadOperands(env, env.code, old(memory.curOffset), encodings)
              case Some((all, next)) => values == Some(all) && memory.curOffset == next
              case None => values == None
    {
      hide Number, ReadOperands, Remain;
      ghost var all := ReadOperands(env, env.code, memory.curOffset, encodings);
      var read: seq<nat> := [];
      var i := 0;
      assert encodings[0..] == encodings;
      RemainAtFirst(env, memory.curOffset, encodings);
      while i < |encodings|
        invariant Valid() && i <= |encodings| && Readable(encodings[i..])
        invariant Remain(env, memory.curOffset, encodings[i..], read, all)
      {
        assert encodings[i..][0] == encodings[i] && encodings[i..][1..] == encodings[i + 1..];
        RemainAfterOne(env, memory.curOffset, encodings[i..], read, all);
        var value := memory.ReadEncodedValue(encodings[i]);
        if value.None? {
          return None;
        }
        read := read + [value.value % env.Word()];
        i := i + 1;
      }
      assert encodings[i..] == [];
      RemainAtLast(env, memory.curOffset, read, all);
      values := Some(read);
    }

    method Decode() returns (ok: bool)
      requires Valid()
      modifies this`stack, this`curOp, this`operands, this`isRegister, this`decodes, memory
      ensures Valid() && decodes == old(decodes) + 1
      ensures match Decoded(env, old(State()))
              case Some(step) => ok && State() == step.machine && curOp == step.op && operands == step.operands
              case None => !ok
    {
      hide Table, Handle, ReadOperands;
      decodes := decodes + 1;
      ghost var before := State();
      var opcode := memory.ReadBytes(1);
      if opcode.None? {
        return false;
      }
      curOp := opcode.value[0];
      var entry := Table(curOp, env.width);
      TableCoversHandlers(curOp, env.width);
      TableReadable(curOp, env.width);
      if entry.handler.Illegal? || |stack| < entry.required {
        return false;
      }
      var all := ReadOperandList(entry.operands);
      if all.None? {
        return false;
      }
      operands := all.value;
      var m := Handle(env, entry.handler, curOp, operands, Machine(stack, isRegister, memory.curOffset));
      if m.None? {
        return false;
      }
      stack, isRegister := m.value.stack, m.value.isRegister;
      memory.curOffset := m.value.cursor;
      ok := true;
    }

    /** At most 1001 decodes, and at most 1000 when it succeeds. */
    method Eval(start: nat, end: nat) returns (ok: bool)
      requires Valid()
      modifies this, memory
      ensures Valid() && decodes <= MAX_ITERATIONS + 1 && (ok ==> decodes <= MAX_ITERATIONS && |stack| <= decodes)
      ensures match Evaluated(env, start, end)
              case Some(result) => ok && State() == result.machine && dexPcSet == result.dexPc
              case None => !ok
    {
      hide Decoded;
      isRegister, stack, dexPcSet, decodes := false, [], false, 0;
      memory.curOffset := start;
      if memory.curOffset >= end {
        return true;
      }
      ghost var m0 := State();
      ok := Decode();
      if !ok {
        return;
      }
      DecodePushesOne(env, m0);
      var checkForDrop := curOp == 0x0c && operands != [] && operands[|operands| - 1] == 0x31584544;
      if memory.curOffset >= end {
        return true;
      }
      ghost var m1 := State();
      ok := Decode();
      if !ok {
        return;
      }
      DecodePushesOne(env, m1);
      if checkForDrop && curOp == 0x13 {
        dexPcSet := true;
      }
      var iterations := 2;
      ghost var m2, marked := State(), dexPcSet;
      while memory.curOffset < end
        invariant Valid() && 2 <= iterations <= MAX_ITERATIONS && decodes == iterations && |stack| <= decodes
        invariant Loop(env, end, State(), iterations) == Loop(env, end, m2, 2)
        invariant dexPcSet == marked
        decreases MAX_ITERATIONS - iterations
      {
        ghost var m := State();
        ok := Decode();
        if !ok {
          return;
        }
        DecodePushesOne(env, m);
        if iterations == MAX_ITERATIONS {
          return false;
        }
        iterations := iterations + 1;
      }
      ok := true;
    }
  }
}
