/** What the opcodes of DWARF expressions mean (section 2.5.1 of DWARF 4): trees over literals, registers and memory, their
    value as arithmetic on words, and the bytes that compute it. */
module ExpressionTrees {
  import opened OrderedMap
  import opened DwarfMemory
  import D = DwarfExpression

  datatype Unary = Magnitude | Opposite | Complement

  datatype Binary =
    | Conjunction | Disjunction | Exclusive
    | Sum | Difference | Product | Quotient | Remainder
    | ShiftedLeft | ShiftedRight | ShiftedArithmetic
    | Equal | Unequal | Less | AtMost | Greater | AtLeast

  datatype Tree =
    | Literal(n: nat)
    | Address(v: nat)
    | Constant(width: nat, v: nat)
    | SignedConstant(width: nat, i: int)
    | UlebConstant(v: nat)
    | SlebConstant(i: int)
    | Register(reg: nat, offset: int)
    | AnyRegister(reg: nat, offset: int)
    | One(u: Unary, t: Tree)
    | Two(b: Binary, l: Tree, r: Tree)
    | Increased(t: Tree, v: nat)
    | Loaded(t: Tree)
    | LoadedBytes(t: Tree, n: nat)

  /** A value; a failure of the whole expression; or whatever the processor makes of what C++ leaves undefined. */
  datatype Value = Is(v: nat) | Fails | Anything

  // Arithmetic on words.

  /** A word as a signed number. */
  function AsNumber(v: nat, word: nat): int {
    if v < word / 2 then v else v - word
  }

  function Size(i: int): nat {
    if i < 0 then 0 - i else i
  }

  predicate BitOf(b: Binary, p: bool, q: bool) {
    if b.Conjunction? then p && q else if b.Disjunction? then p || q else p != q
  }

  /** Bit by bit, the lowest first. */
  function Bitwise(b: Binary, x: nat, y: nat, bits: nat): nat {
    if bits == 0 then 0
    else (if BitOf(b, x % 2 == 1, y % 2 == 1) then 1 else 0) + 2 * Bitwise(b, x / 2, y / 2, bits - 1)
  }

  function Truth(b: bool): Value {
    Is(if b then 1 else 0)
  }

  function UnaryValue(env: D.Env, u: Unary, v: nat): Value {
    var word := env.Word();
    match u
    case Complement => Is((word - 1 - v) % word)
    case Opposite => if v == 0 then Is(0) else if v == word / 2 then Anything else Is((word - v) % word)
    case Magnitude => if v < word / 2 then Is(v) else if v == word / 2 then Anything else Is((word - v) % word)
  }

  function Wrapped(env: D.Env, i: int): Value {
    Is(i % env.Word())
  }

  /** Signed division rounds toward zero. */
  function QuotientOf(env: D.Env, x: nat, y: nat): Value {
    var word := env.Word();
    var i, j := AsNumber(x, word), AsNumber(y, word);
    if j == 0 then Fails
    else if x == word / 2 && y == word - 1 then Anything
    else Wrapped(env, if (i < 0) == (j < 0) then Size(i) / Size(j) else 0 - Size(i) / Size(j))
  }

  function DividedBy(x: nat, d: nat): nat
    requires d > 0
  {
    x / d
  }

  function ShiftedBy(env: D.Env, b: Binary, x: nat, y: nat): Value {
    if y >= 8 * env.width then Anything
    else if b.ShiftedLeft? then Wrapped(env, x * Pow2(y))
    else if b.ShiftedRight? then Is(DividedBy(x, Pow2(y)))
    else Wrapped(env, AsNumber(x, env.Word()) / Pow2(y))
  }

  /** The remainder and the comparisons are those of words without sign. */
  function BinaryValue(env: D.Env, b: Binary, x: nat, y: nat): Value {
    match b
    case Conjunction => Is(Bitwise(b, x, y, 8 * env.width))
    case Disjunction => Is(Bitwise(b, x, y, 8 * env.width))
    case Exclusive => Is(Bitwise(b, x, y, 8 * env.width))
    case Sum => Wrapped(env, x + y)
    case Difference => Wrapped(env, x - y)
    case Product => Wrapped(env, x * y)
    case Quotient => QuotientOf(env, x, y)
    case Remainder => if y == 0 then Fails else Is(x % y)
    case ShiftedLeft => ShiftedBy(env, b, x, y)
    case ShiftedRight => ShiftedBy(env, b, x, y)
    case ShiftedArithmetic => ShiftedBy(env, b, x, y)
    case Equal => Truth(x == y)
    case Unequal => Truth(x != y)
    case Less => Truth(x < y)
    case AtMost => Truth(x <= y)
    case Greater => Truth(x > y)
    case AtLeast => Truth(x >= y)
  }

  /** All of the bytes can be read. */
  predicate Mapped(ram: map<nat, Byte>, addr: nat, n: nat) {
    forall a :: addr <= a < addr + n ==> a in ram
  }

  /** The number whose ith byte, counted from the least significant, is i after the address. */
  function WordAt(ram: map<nat, Byte>, addr: nat, n: nat): nat
    requires Mapped(ram, addr, n)
  {
    if n == 0 then 0 else WordAt(ram, addr, n - 1) + ram[addr + n - 1] * Pow2(8 * (n - 1))
  }

  function Memory(env: D.Env, addr: nat, n: nat): Value {
    if Mapped(env.ram, addr, n) then Is(WordAt(env.ram, addr, n)) else Fails
  }

  function BasedOn(env: D.Env, reg: nat, offset: int): Value {
    if reg < |env.regs| then Is((env.regs[reg] + offset) % env.Word()) else Fails
  }

  /** The value of a tree. */
  function Evaluate(env: D.Env, t: Tree): Value {
    match t
    case Literal(n) => Is(n)
    case Address(v) => Is(v)
    case Constant(_, v) => Is(v % env.Word())
    case SignedConstant(_, i) => Is(i % env.Word())
    case UlebConstant(v) => Is(v % env.Word())
    case SlebConstant(i) => Is(i % env.Word())
    case Register(reg, offset) => BasedOn(env, reg, offset)
    case AnyRegister(reg, offset) => BasedOn(env, reg % env.Word(), offset)
    case One(u, t) => (match Evaluate(env, t) case Is(v) => UnaryValue(env, u, v) case other => other)
    case Two(b, l, r) => (
      match Evaluate(env, l)
      case Is(x) => (match Evaluate(env, r) case Is(y) => BinaryValue(env, b, x, y) case other => other)
      case other => other)
    case Increased(t, n) => (match Evaluate(env, t) case Is(v) => Is((v + n) % env.Word()) case other => other)
    case Loaded(t) => (match Evaluate(env, t) case Is(v) => Memory(env, v, env.width) case other => other)
    case LoadedBytes(t, n) => (
      match Evaluate(env, t)
      case Is(v) => if 0 < n <= env.width then Memory(env, v, n) else Fails
      case other => other)
  }

  // The bytes of a tree.

  predicate IsWidth(n: nat) {
    n == 1 || n == 2 || n == 4 || n == 8
  }

  /** A signed LEB128 number that is read back without relying on an undefined shift. */
  predicate SlebFits(i: int) {
    -0x4000_0000_0000_0000 <= i < 0x8000_0000_0000_0000
  }

  /** The operands fit their encodings. */
  predicate Encodable(env: D.Env, t: Tree) {
    match t
    case Literal(n) => n < 32
    case Address(v) => v < env.Word()
    case Constant(width, v) => IsWidth(width) && v < Pow2(8 * width)
    case SignedConstant(width, i) => IsWidth(width) && 0 - Pow2(8 * width - 1) <= i < Pow2(8 * width - 1)
    case UlebConstant(v) => v < W64
    case SlebConstant(i) => SlebFits(i)
    case Register(reg, offset) => reg < 32 && SlebFits(offset)
    case AnyRegister(reg, offset) => reg < W64 && SlebFits(offset)
    case One(_, t) => Encodable(env, t)
    case Two(_, l, r) => Encodable(env, l) && Encodable(env, r)
    case Increased(t, v) => Encodable(env, t) && v < W64
    case Loaded(t) => Encodable(env, t)
    case LoadedBytes(t, n) => Encodable(env, t) && n < 256
  }

  function UnaryCode(u: Unary): Byte {
    match u
    case Magnitude => 0x19
    case Opposite => 0x1f
    case Complement => 0x20
  }

  function BinaryCode(b: Binary): Byte {
    match b
    case Conjunction => 0x1a
    case Quotient => 0x1b
    case Difference => 0x1c
    case Remainder => 0x1d
    case Product => 0x1e
    case Disjunction => 0x21
    case Sum => 0x22
    case ShiftedLeft => 0x24
    case ShiftedRight => 0x25
    case ShiftedArithmetic => 0x26
    case Exclusive => 0x27
    case Equal => 0x29
    case AtLeast => 0x2a
    case Greater => 0x2b
    case AtMost => 0x2c
    case Less => 0x2d
    case Unequal => 0x2e
  }

  function ConstantCode(width: nat): Byte
    requires IsWidth(width)
  {
    if width == 1 then 0x08 else if width == 2 then 0x0a else if width == 4 then 0x0c else 0x0e
  }

  /** The instructions of a tree: operands first, the left one before the right one. */
  function Code(env: D.Env, t: Tree): seq<D.Instr>
    requires Encodable(env, t)
  {
    match t
    case Literal(n) => [D.Instr(0x30 + n, [])]
    case Address(v) => [D.Instr(0x03, FixedBytes(v, env.width))]
    case Constant(width, v) => [D.Instr(ConstantCode(width), FixedBytes(v, width))]
    case SignedConstant(width, i) =>
      [D.Instr(ConstantCode(width) + 1, FixedBytes(if i < 0 then i + Pow2(8 * width) else i, width))]
    case UlebConstant(v) => [D.Instr(0x10, EncodeUleb(v))]
    case SlebConstant(i) => [D.Instr(0x11, EncodeSleb(i))]
    case Register(reg, offset) => [D.Instr(0x70 + reg, EncodeSleb(offset))]
    case AnyRegister(reg, offset) => [D.Instr(0x92, EncodeUleb(reg) + EncodeSleb(offset))]
    case One(u, t) => Code(env, t) + [D.Instr(UnaryCode(u), [])]
    case Two(b, l, r) => Code(env, l) + Code(env, r) + [D.Instr(BinaryCode(b), [])]
    case Increased(t, v) => Code(env, t) + [D.Instr(0x23, EncodeUleb(v))]
    case Loaded(t) => Code(env, t) + [D.Instr(0x06, [])]
    case LoadedBytes(t, n) => Code(env, t) + [D.Instr(0x94, [n])]
  }

  // Reading the operands.

  lemma WholeIsHeld(bytes: seq<Byte>)
    ensures Holds(bytes, 0, bytes)
  {
  }

  lemma NoOperand(env: D.Env, op: Byte)
    requires env.Proper() && D.Table(op, env.width).operands == []
    ensures var i := D.Instr(op, []); D.Whole(env, i) && D.OperandsOf(env, i) == []
  {
    hide D.Table;
    D.TableReadable(op, env.width);
  }

  lemma OneOperand(env: D.Env, i: D.Instr, e: Encoding, v: nat)
    requires env.Proper() && D.Table(i.op, env.width).operands == [e]
    requires D.Readable([e]) && Number(env.u, i.bytes, 0, e) == Some((v, |i.bytes|))
    ensures D.Whole(env, i) && D.OperandsOf(env, i) == [v % env.Word()]
  {
    hide D.Table, Number;
    assert [e][1..] == [];
    var end: nat := |i.bytes|;
    assert D.ReadOperands(env, i.bytes, 0, [e]) == Some(([v % env.Word()] + [], end));
  }

  lemma UlebOperand(env: D.Env, i: D.Instr, v: nat)
    requires env.Proper() && D.Table(i.op, env.width).operands == [UlebNumber] && v < W64 && i.bytes == EncodeUleb(v)
    ensures D.Whole(env, i) && D.OperandsOf(env, i) == [v % env.Word()]
  {
    UlebRead(env.u, v, [], 0);
    assert EncodeUleb(v) + [] == EncodeUleb(v);
    hide D.Table;
    OneOperand(env, i, UlebNumber, v);
  }

  /** A number at the front of the bytes, with any bytes after it. */
  lemma UlebRead(u: Undefined, v: nat, rest: seq<Byte>, n: nat)
    requires v < W64
    ensures Number(u, EncodeUleb(v) + rest, 0, UlebNumber) == Some((v, |EncodeUleb(v)|))
  {
    Pow2Values();
    Pow2Grows(64, 70);
    EncodeUlebEncodes(v, 10);
    hide Pow2, EncodeUleb, IsUleb, Uleb;
    var bytes := EncodeUleb(v);
    assert (bytes + rest)[0..0 + |bytes|] == bytes;
    UlebRoundTrip(u, bytes + rest, 0, bytes, v);
  }

  lemma SlebRead(u: Undefined, i: int, mem: seq<Byte>, off: nat)
    requires SlebFits(i) && Holds(mem, off, EncodeSleb(i))
    ensures Number(u, mem, off, SlebNumber) == Some((Word64(i), off + |EncodeSleb(i)|))
  {
    var bytes := EncodeSleb(i);
    EncodeSlebEncodes(i);
    Pow2Values();
    Pow2Grows(63, 69);
    TenBytes(i, bytes);
    hide Pow2, EncodeSleb, IsSleb, Sleb, Holds;
    SlebRoundTrip(u, mem, off, bytes, i);
  }

  /** A signed number as a word of either width. */
  lemma WordOfWord64(env: D.Env, i: int)
    requires env.Proper()
    ensures Word64(i) % env.Word() == i % env.Word()
  {
    if env.width == 4 {
      assert i == i % W64 + 0x1_0000_0000 * (0x1_0000_0000 * (i / W64));
      MultipleAway(i % W64, 0x1_0000_0000 * (i / W64));
    }
  }

  lemma MultipleAway(x: int, k: int)
    ensures (x + 0x1_0000_0000 * k) % 0x1_0000_0000 == x % 0x1_0000_0000
  {
  }

  lemma SlebOperand(env: D.Env, i: D.Instr, v: int)
    requires env.Proper() && D.Table(i.op, env.width).operands == [SlebNumber] && SlebFits(v) && i.bytes == EncodeSleb(v)
    ensures D.Whole(env, i) && D.OperandsOf(env, i) == [v % env.Word()]
  {
    hide D.Table, Word64, EncodeSleb;
    WholeIsHeld(i.bytes);
    SlebRead(env.u, v, i.bytes, 0);
    WordOfWord64(env, v);
    OneOperand(env, i, SlebNumber, Word64(v));
  }

  lemma FixedOperand(env: D.Env, i: D.Instr, v: nat, n: nat)
    requires env.Proper() && 0 < n <= 8 && D.Table(i.op, env.width).operands == [Unsigned(n)]
    requires v < Pow2(8 * n) && i.bytes == FixedBytes(v, n)
    ensures D.Whole(env, i) && D.OperandsOf(env, i) == [v % env.Word()]
  {
    hide D.Table, Pow2, FixedBytes;
    WholeIsHeld(i.bytes);
    FixedRoundTrip(env.u, i.bytes, 0, v, n);
    OneOperand(env, i, Unsigned(n), v);
  }

  lemma SignedOperand(env: D.Env, i: D.Instr, v: int, n: nat)
    requires env.Proper() && 0 < n <= 8 && D.Table(i.op, env.width).operands == [Signed(n)]
    requires 0 - Pow2(8 * n - 1) <= v < Pow2(8 * n - 1) && i.bytes == FixedBytes(if v < 0 then v + Pow2(8 * n) else v, n)
    ensures D.Whole(env, i) && D.OperandsOf(env, i) == [v % env.Word()]
  {
    hide D.Table, Pow2, FixedBytes, Word64;
    WholeIsHeld(i.bytes);
    SignedRoundTrip(env.u, i.bytes, 0, v, n);
    WordOfWord64(env, v);
    OneOperand(env, i, Signed(n), Word64(v));
  }

  lemma UlebThenSleb(env: D.Env, i: D.Instr, v: nat, offset: int)
    requires env.Proper() && D.Table(i.op, env.width).operands == [UlebNumber, SlebNumber]
    requires v < W64 && SlebFits(offset) && i.bytes == EncodeUleb(v) + EncodeSleb(offset)
    ensures D.Whole(env, i) && D.OperandsOf(env, i) == [v % env.Word(), offset % env.Word()]
  {
    hide D.Table, Word64, EncodeUleb, EncodeSleb, Number;
    var a, b := EncodeUleb(v), EncodeSleb(offset);
    UlebRead(env.u, v, b, 0);
    assert i.bytes[|a|..|a| + |b|] == b;
    SlebRead(env.u, offset, i.bytes, |a|);
    WordOfWord64(env, offset);
    var both, end: nat := [UlebNumber, SlebNumber], |i.bytes|;
    assert both[1..] == [SlebNumber] && [SlebNumber][1..] == [];
    assert D.ReadOperands(env, i.bytes, end, []) == Some(([], end));
    assert D.ReadOperands(env, i.bytes, |a|, [SlebNumber]) == Some(([Word64(offset) % env.Word()] + [], end));
    assert [Word64(offset) % env.Word()] + [] == [offset % env.Word()];
    assert Number(env.u, i.bytes, 0, both[0]) == Some((v, |a|));
    assert D.ReadOperands(env, i.bytes, 0, both) == Some(([v % env.Word()] + [offset % env.Word()], end));
  }

  // The effect of the instructions.

  /** An instruction that pushes a value. */
  ghost predicate Pushes(env: D.Env, i: D.Instr, m: D.Machine, r: Value)
    requires env.Proper()
  {
    D.Straight(env, i) && Leaves(D.Effect(env, i, m), m.stack, m.isRegister, m.cursor + 1 + |i.bytes|, r)
  }

  /** What a value on top of a stack is to be, if anything is promised of it. */
  ghost predicate Leaves(got: Option<D.Machine>, below: seq<nat>, isRegister: bool, cursor: nat, r: Value) {
    match r
    case Is(v) => got == Some(D.Machine([v] + below, isRegister, cursor))
    case Fails => got == None
    case Anything => true
  }

  lemma AddsUp(env: D.Env, x: int, y: int)
    requires env.Proper()
    ensures (x + y % env.Word()) % env.Word() == (x + y) % env.Word()
  {
    if env.width == 4 {
      AddsUp32(x, y);
    } else {
      AddsUp64(x, y);
    }
  }

  lemma AddsUp32(x: int, y: int)
    ensures (x + y % 0x1_0000_0000) % 0x1_0000_0000 == (x + y) % 0x1_0000_0000
  {
    var k := y / 0x1_0000_0000;
    assert x + y == x + y % 0x1_0000_0000 + k * 0x1_0000_0000;
  }

  lemma AddsUp64(x: int, y: int)
    ensures (x + y % W64) % W64 == (x + y) % W64
  {
    var k := y / W64;
    assert x + y == x + y % W64 + k * W64;
  }

  predicate IsLeaf(t: Tree) {
    !t.One? && !t.Two? && !t.Increased? && !t.Loaded? && !t.LoadedBytes?
  }

  predicate IsRegister(t: Tree) {
    t.Register? || t.AnyRegister?
  }

  lemma ConstantPushes(env: D.Env, t: Tree, m: D.Machine)
    requires env.Proper() && IsLeaf(t) && !IsRegister(t) && Encodable(env, t)
    ensures Pushes(env, Code(env, t)[0], m, Evaluate(env, t))
  {
    hide EncodeUleb, EncodeSleb, FixedBytes, Pow2, D.ReadOperands, D.OperandsOf, D.Whole, D.PushAll;
    match t
    case Literal(n) => NoOperand(env, Code(env, t)[0].op);
    case UlebConstant(_) => VariablePushes(env, t, m);
    case SlebConstant(_) => VariablePushes(env, t, m);
    case _ => FixedPushes(env, t, m);
  }

  lemma FixedPushes(env: D.Env, t: Tree, m: D.Machine)
    requires env.Proper() && (t.Address? || t.Constant? || t.SignedConstant?) && Encodable(env, t)
    ensures Pushes(env, Code(env, t)[0], m, Evaluate(env, t))
  {
    hide FixedBytes, Pow2, D.ReadOperands, D.OperandsOf, D.Whole, D.PushAll;
    var i := Code(env, t)[0];
    match t
    case Address(v) =>
      AddressFits(env, v);
      FixedOperand(env, i, v, env.width);
      PushOne(m.stack, v);
    case Constant(width, v) =>
      ConstantEntry(env, width);
      FixedOperand(env, i, v, width);
      PushOne(m.stack, v % env.Word());
    case SignedConstant(width, v) =>
      ConstantEntry(env, width);
      SignedOperand(env, i, v, width);
      PushOne(m.stack, v % env.Word());
  }

  lemma VariablePushes(env: D.Env, t: Tree, m: D.Machine)
    requires env.Proper() && (t.UlebConstant? || t.SlebConstant?) && Encodable(env, t)
    ensures Pushes(env, Code(env, t)[0], m, Evaluate(env, t))
  {
    hide EncodeUleb, EncodeSleb, D.ReadOperands, D.OperandsOf, D.Whole, D.PushAll;
    var i := Code(env, t)[0];
    match t
    case UlebConstant(v) =>
      UlebOperand(env, i, v);
      PushOne(m.stack, v % env.Word());
    case SlebConstant(v) =>
      SlebOperand(env, i, v);
      PushOne(m.stack, v % env.Word());
  }

  lemma RegisterPushes(env: D.Env, t: Tree, m: D.Machine)
    requires env.Proper() && IsRegister(t) && Encodable(env, t)
    ensures Pushes(env, Code(env, t)[0], m, Evaluate(env, t))
  {
    hide EncodeUleb, EncodeSleb, D.ReadOperands, D.OperandsOf, D.Whole;
    var i := Code(env, t)[0];
    match t
    case Register(reg, offset) =>
      SlebOperand(env, i, offset);
      if reg < |env.regs| {
        AddsUp(env, env.regs[reg], offset);
      }
    case AnyRegister(reg, offset) =>
      UlebThenSleb(env, i, reg, offset);
      if reg % env.Word() < |env.regs| {
        AddsUp(env, env.regs[reg % env.Word()], offset);
      }
  }

  lemma PushOne(stack: seq<nat>, v: nat)
    ensures D.PushAll(stack, [v]) == [v] + stack
  {
    assert [v][1..] == [];
  }

  lemma ConstantEntry(env: D.Env, width: nat)
    requires IsWidth(width)
    ensures D.Table(ConstantCode(width), env.width) == D.Entry(D.Push, 0, [Unsigned(width)])
    ensures D.Table(ConstantCode(width) + 1, env.width) == D.Entry(D.Push, 0, [Signed(width)])
  {
  }

  lemma AddressFits(env: D.Env, v: nat)
    requires env.Proper() && v < env.Word()
    ensures v < Pow2(8 * env.width) && v % env.Word() == v
  {
    Pow2Values();
  }

  function SameOp(b: Binary): D.BinaryOp {
    match b
    case Conjunction => D.And
    case Disjunction => D.Or
    case Exclusive => D.Xor
    case Sum => D.Plus
    case Difference => D.Minus
    case Product => D.Mul
    case Quotient => D.Div
    case Remainder => D.Mod
    case ShiftedLeft => D.Shl
    case ShiftedRight => D.Shr
    case ShiftedArithmetic => D.Shra
    case Equal => D.Eq
    case Unequal => D.Ne
    case Less => D.Lt
    case AtMost => D.Le
    case Greater => D.Gt
    case AtLeast => D.Ge
  }

  lemma BinaryEntry(b: Binary, width: nat)
    ensures D.Table(BinaryCode(b), width) == D.Entry(D.Binary(SameOp(b)), 2, [])
  {
  }

  lemma {:induction false} SameBits(b: Binary, x: nat, y: nat, bits: nat)
    requires (b.Conjunction? || b.Disjunction? || b.Exclusive?) && x < Pow2(bits) && y < Pow2(bits)
    ensures D.Bitwise(SameOp(b), x, y) == Bitwise(b, x, y, bits) < Pow2(bits)
  {
    if bits > 0 {
      SameBits(b, x / 2, y / 2, bits - 1);
    }
  }

  lemma SameQuotient(i: int, j: int)
    requires j != 0
    ensures D.TruncDiv(i, j) == if (i < 0) == (j < 0) then Size(i) / Size(j) else 0 - Size(i) / Size(j)
  {
    if j < 0 {
      var k: int := 0 - j;
      assert Size(j) == k;
      DividedByNegative(Size(i), k);
    }
  }

  lemma DividedByNegative(a: nat, k: nat)
    requires k > 0
    ensures a / (0 - k) == 0 - a / k
  {
    var q := a / k;
    assert a == q * k + a % k;
    assert a == (0 - q) * (0 - k) + a % k;
  }

  lemma ShiftFits(env: D.Env, x: nat, y: nat)
    requires env.Proper() && x < env.Word()
    ensures x / Pow2(y) <= x && x / Pow2(y) % env.Word() == x / Pow2(y)
  {
    hide Pow2;
    assert x / Pow2(y) <= x;
    if env.width == 4 {
      SmallMod(x / Pow2(y), 0x1_0000_0000);
    } else {
      SmallMod(x / Pow2(y), W64);
    }
  }

  lemma WordIsPower(env: D.Env)
    requires env.Proper()
    ensures env.Word() == Pow2(8 * env.width)
  {
    Pow2Values();
  }

  /** The operation of the machine is that of the arithmetic, and gives a word. */
  lemma SameOperation(env: D.Env, b: Binary, op: Byte, x: nat, y: nat)
    requires env.Proper() && x < env.Word() && y < env.Word()
    ensures match BinaryValue(env, b, x, y)
            case Is(v) => D.Apply(env, SameOp(b), op, x, y) == Some(v) && v < env.Word()
            case Fails => D.Apply(env, SameOp(b), op, x, y) == None
            case Anything => true
  {
    WordIsPower(env);
    hide Pow2, D.TruncDiv;
    if b.Conjunction? || b.Disjunction? || b.Exclusive? {
      SameBits(b, x, y, 8 * env.width);
    } else if b.Quotient? {
      if AsNumber(y, env.Word()) != 0 {
        SameQuotient(AsNumber(x, env.Word()), AsNumber(y, env.Word()));
      }
    } else if b.ShiftedRight? {
      ShiftFits(env, x, y);
    }
  }

  lemma SameUnary(env: D.Env, u: Unary, op: Byte, v: nat)
    requires env.Proper() && v < env.Word() && UnaryValue(env, u, v).Is?
    ensures var r := UnaryValue(env, u, v).v;
            r < env.Word() && r == match u
                                   case Magnitude => D.Absolute(env, op, v)
                                   case Opposite => D.Negative(env, op, v)
                                   case Complement => D.AsWord(env.Word() - 1 - v, env.Word())
  {
    hide D.AsWord;
    D.WordOf(0 - D.AsSigned(v, env.Word()), env.Word());
    D.WordOf(env.Word() - 1 - v, env.Word());
    if env.width == 4 {
      SmallMod((env.Word() - v) % env.Word(), 0x1_0000_0000);
    }
  }

  lemma {:induction false} WordAtFirst(ram: map<nat, Byte>, addr: nat, n: nat)
    requires n > 0 && Mapped(ram, addr, n)
    ensures WordAt(ram, addr, n) == ram[addr] + 256 * WordAt(ram, addr + 1, n - 1)
  {
    if n > 1 {
      WordAtFirst(ram, addr, n - 1);
      Pow2Byte(n - 1);
      hide Pow2;
      assert ram[addr + n - 1] * (256 * Pow2(8 * (n - 2))) == 256 * (ram[addr + n - 1] * Pow2(8 * (n - 2)));
      assert WordAt(ram, addr + 1, n - 1) == WordAt(ram, addr + 1, n - 2) + ram[addr + n - 1] * Pow2(8 * (n - 2));
    } else {
      assert WordAt(ram, addr, 0) == WordAt(ram, addr + 1, 0) == 0;
    }
  }

  lemma {:induction false} SameMemory(ram: map<nat, Byte>, addr: nat, n: nat)
    ensures D.ReadLittleEndian(ram, addr, n) == if Mapped(ram, addr, n) then Some(WordAt(ram, addr, n)) else None
    ensures Mapped(ram, addr, n) ==> WordAt(ram, addr, n) < Pow2(8 * n)
    decreases n
  {
    if n > 0 {
      SameMemory(ram, addr + 1, n - 1);
      Pow2Byte(n);
      hide Pow2, WordAt;
      if Mapped(ram, addr, n) {
        WordAtFirst(ram, addr, n);
      } else if addr in ram {
        var a :| addr <= a < addr + n && a !in ram;
        assert a !in ram && addr + 1 <= a < addr + 1 + (n - 1);
      }
    }
  }

  lemma MemoryFits(env: D.Env, addr: nat, n: nat)
    requires env.Proper() && n <= env.width && Mapped(env.ram, addr, n)
    ensures WordAt(env.ram, addr, n) < env.Word()
  {
    SameMemory(env.ram, addr, n);
    Pow2Grows(8 * n, 8 * env.width);
    WordIsPower(env);
  }

  /** An instruction that replaces the top of the stack. */
  ghost predicate Replaces(env: D.Env, i: D.Instr, m: D.Machine, below: seq<nat>, r: Value)
    requires env.Proper()
  {
    D.Straight(env, i) && Leaves(D.Effect(env, i, m), below, m.isRegister, m.cursor + 1 + |i.bytes|, r)
  }

  lemma OneReplaces(env: D.Env, u: Unary, m: D.Machine, v: nat, below: seq<nat>)
    requires env.Proper() && v < env.Word() && m.stack == [v] + below
    ensures Replaces(env, D.Instr(UnaryCode(u), []), m, below, UnaryValue(env, u, v))
  {
    hide D.ReadOperands, D.OperandsOf, D.Whole, D.Absolute, D.Negative, D.AsWord, UnaryValue;
    var op := UnaryCode(u);
    NoOperand(env, op);
    assert m.stack[1..] == below;
    if UnaryValue(env, u, v).Is? {
      SameUnary(env, u, op, v);
    }
    UnaryNeverFails(env, u, v);
  }

  lemma UnaryNeverFails(env: D.Env, u: Unary, v: nat)
    ensures !UnaryValue(env, u, v).Fails?
  {
  }

  lemma TwoReplaces(env: D.Env, b: Binary, m: D.Machine, x: nat, y: nat, below: seq<nat>)
    requires env.Proper() && x < env.Word() && y < env.Word() && m.stack == [y, x] + below
    ensures Replaces(env, D.Instr(BinaryCode(b), []), m, below, BinaryValue(env, b, x, y))
  {
    var op := BinaryCode(b);
    BinaryEntry(b, env.width);
    hide D.ReadOperands, D.OperandsOf, D.Whole, D.Table, D.Apply, BinaryValue, BinaryCode;
    NoOperand(env, op);
    assert m.stack[2..] == below;
    SameOperation(env, b, op, x, y);
  }

  lemma IncreaseReplaces(env: D.Env, m: D.Machine, v: nat, n: nat, below: seq<nat>)
    requires env.Proper() && m.stack == [v] + below && n < W64
    ensures Replaces(env, D.Instr(0x23, EncodeUleb(n)), m, below, Is((v + n) % env.Word()))
  {
    hide D.ReadOperands, D.OperandsOf, D.Whole, EncodeUleb;
    UlebOperand(env, D.Instr(0x23, EncodeUleb(n)), n);
    assert m.stack[1..] == below;
    AddsUp(env, v, n);
  }

  lemma LoadReplaces(env: D.Env, m: D.Machine, v: nat, below: seq<nat>)
    requires env.Proper() && m.stack == [v] + below
    ensures Replaces(env, D.Instr(0x06, []), m, below, Memory(env, v, env.width))
  {
    hide D.ReadOperands, D.OperandsOf, D.Whole, D.ReadLittleEndian, WordAt, Mapped;
    NoOperand(env, 0x06);
    assert m.stack[1..] == below;
    SameMemory(env.ram, v, env.width);
  }

  lemma LoadBytesReplaces(env: D.Env, m: D.Machine, v: nat, n: nat, below: seq<nat>)
    requires env.Proper() && m.stack == [v] + below && n < 256
    ensures Replaces(env, D.Instr(0x94, [n]), m, below, if 0 < n <= env.width then Memory(env, v, n) else Fails)
  {
    hide D.ReadOperands, D.OperandsOf, D.Whole, D.ReadLittleEndian, WordAt, Mapped;
    OneByteOperand(env, D.Instr(0x94, [n]), n);
    assert m.stack[1..] == below;
    SameMemory(env.ram, v, n);
  }

  lemma OneByteOperand(env: D.Env, i: D.Instr, n: nat)
    requires env.Proper() && n < 256 && D.Table(i.op, env.width).operands == [Unsigned(1)] && i.bytes == [n]
    ensures D.Whole(env, i) && D.OperandsOf(env, i) == [n]
  {
    assert Pow2(8) == 256;
    assert FixedBytes(n, 1) == [n];
    hide D.Table, Pow2, FixedBytes;
    FixedOperand(env, i, n, 1);
    if env.width == 4 {
      SmallMod(n, 0x1_0000_0000);
    } else {
      SmallMod(n, W64);
    }
  }

  // The whole tree.

  lemma {:induction false} AssembledAppends(a: seq<D.Instr>, b: seq<D.Instr>)
    ensures D.Assembled(a + b) == D.Assembled(a) + D.Assembled(b)
  {
    if a == [] {
      assert a + b == b;
    } else {
      hide D.Assembled;
      AssembledAppends(a[1..], b);
      AssembledFirst(a);
      AssembledFirst(a + b);
      assert (a + b)[0] == a[0] && (a + b)[1..] == a[1..] + b;
      Regrouped([a[0].op] + a[0].bytes, D.Assembled(a[1..]), D.Assembled(b));
    }
  }

  lemma AssembledFirst(instrs: seq<D.Instr>)
    requires instrs != []
    ensures D.Assembled(instrs) == [instrs[0].op] + instrs[0].bytes + D.Assembled(instrs[1..])
  {
  }

  lemma Regrouped(a: seq<Byte>, b: seq<Byte>, c: seq<Byte>)
    ensures a + (b + c) == a + b + c
  {
  }

  /** One more instruction after a list that leads to the machine `mid`. */
  lemma ThenReplaces(env: D.Env, code: seq<D.Instr>, i: D.Instr, m: D.Machine, mid: D.Machine, below: seq<nat>, r: Value)
    requires env.Proper() && D.AllStraight(env, code) && D.Meaning(env, code, m) == Some(mid)
    requires mid.cursor == m.cursor + |D.Assembled(code)| && mid.isRegister == m.isRegister && Replaces(env, i, mid, below, r)
    ensures D.AllStraight(env, code + [i])
    ensures Leaves(D.Meaning(env, code + [i], m), below, m.isRegister, m.cursor + |D.Assembled(code + [i])|, r)
  {
    hide D.Meaning, D.Assembled, D.Effect, D.Straight, D.AllStraight;
    AloneMeans(env, i, mid);
    D.MeaningComposes(env, code, [i], m);
    AssembledAppends(code, [i]);
  }

  lemma AloneMeans(env: D.Env, i: D.Instr, m: D.Machine)
    requires env.Proper() && D.Straight(env, i)
    ensures D.AllStraight(env, [i]) && D.Meaning(env, [i], m) == D.Effect(env, i, m)
    ensures |D.Assembled([i])| == 1 + |i.bytes|
  {
    assert D.AllStraight(env, [i]) && [i][0] == i && [i][1..] == [];
    hide D.Effect;
    assert D.Assembled([i]) == [i.op] + i.bytes + [];
  }

  /** A tree leaves its value on top of the stack, or makes the program fail. */
  ghost predicate Means(env: D.Env, code: seq<D.Instr>, m: D.Machine, r: Value)
    requires env.Proper()
  {
    && D.AllStraight(env, code) && Leaves(D.Meaning(env, code, m), m.stack, m.isRegister, m.cursor + |D.Assembled(code)|, r)
    && (r.Is? ==> r.v < env.Word())
  }

  lemma LeafMeans(env: D.Env, t: Tree, m: D.Machine)
    requires env.Proper() && IsLeaf(t) && Encodable(env, t)
    ensures Means(env, Code(env, t), m, Evaluate(env, t))
  {
    if IsRegister(t) {
      RegisterPushes(env, t, m);
    } else {
      ConstantPushes(env, t, m);
    }
    assert Evaluate(env, t).Is? ==> Evaluate(env, t).v < env.Word();
    var code := Code(env, t);
    assert |code| == 1 && code[1..] == [];
    hide D.Straight, D.Effect, Code, Evaluate;
    assert D.Meaning(env, code, m) == D.Effect(env, code[0], m);
    assert D.Assembled(code) == [code[0].op] + code[0].bytes + [];
  }

  /** If the first part fails, so does the whole. */
  lemma FailsThroughout(env: D.Env, a: seq<D.Instr>, b: seq<D.Instr>, m: D.Machine)
    requires env.Proper() && D.AllStraight(env, a) && D.AllStraight(env, b)
    requires D.Meaning(env, a, m) == None
    ensures D.AllStraight(env, a + b) && D.Meaning(env, a + b, m) == None
  {
    D.MeaningComposes(env, a, b, m);
  }

  /** A tree of which the value of another is the operand. */
  lemma ThenMeans(env: D.Env, code: seq<D.Instr>, i: D.Instr, m: D.Machine, r: Value, r': Value)
    requires env.Proper() && Means(env, code, m, r) && D.Straight(env, i)
    requires r.Is? ==> Replaces(env, i, D.Machine([r.v] + m.stack, m.isRegister, m.cursor + |D.Assembled(code)|), m.stack, r')
    requires if r.Is? then r'.Is? ==> r'.v < env.Word() else r' == r
    ensures Means(env, code + [i], m, r')
  {
    hide D.Straight, D.Meaning, D.Assembled, D.Effect;
    if r.Is? {
      ThenReplaces(env, code, i, m, D.Machine([r.v] + m.stack, m.isRegister, m.cursor + |D.Assembled(code)|), m.stack, r');
    } else {
      AloneMeans(env, i, m);
      if r.Fails? {
        FailsThroughout(env, code, [i], m);
      }
    }
  }

  lemma OneMeans(env: D.Env, u: Unary, code: seq<D.Instr>, m: D.Machine, r: Value)
    requires env.Proper() && Means(env, code, m, r)
    ensures Means(env, code + [D.Instr(UnaryCode(u), [])], m, if r.Is? then UnaryValue(env, u, r.v) else r)
  {
    hide D.Meaning, D.Assembled, D.Effect, UnaryValue, D.Straight;
    var i := D.Instr(UnaryCode(u), []);
    var v := if r.Is? then r.v else 0;
    OneReplaces(env, u, D.Machine([v] + m.stack, m.isRegister, m.cursor + |D.Assembled(code)|), v, m.stack);
    if r.Is? && UnaryValue(env, u, v).Is? {
      SameUnary(env, u, i.op, v);
    }
    ThenMeans(env, code, i, m, r, if r.Is? then UnaryValue(env, u, v) else r);
  }

  lemma IncreaseMeans(env: D.Env, n: nat, code: seq<D.Instr>, m: D.Machine, r: Value)
    requires env.Proper() && Means(env, code, m, r) && n < W64
    ensures Means(env, code + [D.Instr(0x23, EncodeUleb(n))], m, if r.Is? then Is((r.v + n) % env.Word()) else r)
  {
    hide D.Meaning, D.Assembled, D.Effect, D.Straight, EncodeUleb;
    var i := D.Instr(0x23, EncodeUleb(n));
    var v := if r.Is? then r.v else 0;
    IncreaseReplaces(env, D.Machine([v] + m.stack, m.isRegister, m.cursor + |D.Assembled(code)|), v, n, m.stack);
    ThenMeans(env, code, i, m, r, if r.Is? then Is((v + n) % env.Word()) else r);
  }

  lemma LoadMeans(env: D.Env, code: seq<D.Instr>, m: D.Machine, r: Value)
    requires env.Proper() && Means(env, code, m, r)
    ensures Means(env, code + [D.Instr(0x06, [])], m, if r.Is? then Memory(env, r.v, env.width) else r)
  {
    hide D.Meaning, D.Assembled, D.Effect, D.Straight, WordAt, Mapped;
    var v := if r.Is? then r.v else 0;
    LoadReplaces(env, D.Machine([v] + m.stack, m.isRegister, m.cursor + |D.Assembled(code)|), v, m.stack);
    if Mapped(env.ram, v, env.width) {
      MemoryFits(env, v, env.width);
    }
    ThenMeans(env, code, D.Instr(0x06, []), m, r, if r.Is? then Memory(env, v, env.width) else r);
  }

  lemma LoadBytesMeans(env: D.Env, n: nat, code: seq<D.Instr>, m: D.Machine, r: Value)
    requires env.Proper() && Means(env, code, m, r) && n < 256
    ensures Means(env, code + [D.Instr(0x94, [n])], m,
                  if !r.Is? then r else if 0 < n <= env.width then Memory(env, r.v, n) else Fails)
  {
    hide D.Meaning, D.Assembled, D.Effect, D.Straight, WordAt, Mapped;
    var v := if r.Is? then r.v else 0;
    LoadBytesReplaces(env, D.Machine([v] + m.stack, m.isRegister, m.cursor + |D.Assembled(code)|), v, n, m.stack);
    if n <= env.width && Mapped(env.ram, v, n) {
      MemoryFits(env, v, n);
    }
    ThenMeans(env, code, D.Instr(0x94, [n]), m, r,
              if !r.Is? then r else if 0 < n <= env.width then Memory(env, v, n) else Fails);
  }

  function Combined(env: D.Env, b: Binary, x: Value, y: Value): Value {
    if !x.Is? then x else if !y.Is? then y else BinaryValue(env, b, x.v, y.v)
  }

  /** What the right operand leads to on top of the left one. */
  lemma BothMean(env: D.Env, left: seq<D.Instr>, right: seq<D.Instr>, m: D.Machine, x: Value, y: Value)
    requires env.Proper() && Means(env, left, m, x)
    requires Means(env, right, D.Machine([if x.Is? then x.v else 0] + m.stack, m.isRegister, m.cursor + |D.Assembled(left)|), y)
    ensures D.AllStraight(env, left + right)
    ensures |D.Assembled(left + right)| == |D.Assembled(left)| + |D.Assembled(right)|
    ensures x.Is? && y.Is? ==>
              D.Meaning(env, left + right, m)
              == Some(D.Machine([y.v, x.v] + m.stack, m.isRegister, m.cursor + |D.Assembled(left + right)|))
    ensures x.Fails? || (x.Is? && y.Fails?) ==> D.Meaning(env, left + right, m) == None
  {
    hide D.AllStraight, D.Assembled, D.Meaning;
    D.MeaningComposes(env, left, right, m);
    AssembledAppends(left, right);
    if x.Is? && y.Is? {
      assert [y.v] + ([x.v] + m.stack) == [y.v, x.v] + m.stack;
    }
  }

  lemma TwoMeans(env: D.Env, b: Binary, left: seq<D.Instr>, right: seq<D.Instr>, m: D.Machine, x: Value, y: Value)
    requires env.Proper() && Means(env, left, m, x)
    requires Means(env, right, D.Machine([if x.Is? then x.v else 0] + m.stack, m.isRegister, m.cursor + |D.Assembled(left)|), y)
    ensures Means(env, left + right + [D.Instr(BinaryCode(b), [])], m, Combined(env, b, x, y))
  {
    hide D.Assembled, D.Effect, BinaryValue, D.Straight, D.Meaning;
    var i := D.Instr(BinaryCode(b), []);
    BothMean(env, left, right, m, x, y);
    var code := left + right;
    var v: nat, w: nat := if x.Is? then x.v else 0, if y.Is? then y.v else 0;
    var mid := D.Machine([w, v] + m.stack, m.isRegister, m.cursor + |D.Assembled(code)|);
    TwoReplaces(env, b, mid, v, w, m.stack);
    AloneMeans(env, i, mid);
    if x.Is? && y.Is? {
      ThenReplaces(env, code, i, m, mid, m.stack, BinaryValue(env, b, v, w));
      SameOperation(env, b, i.op, v, w);
    } else {
      D.MeaningComposes(env, code, [i], m);
    }
  }

  /** The bytes of a tree compute its value, whatever is below it on the stack. */
  lemma {:induction false} TreeMeans(env: D.Env, t: Tree, m: D.Machine)
    requires env.Proper() && Encodable(env, t)
    ensures Means(env, Code(env, t), m, Evaluate(env, t))
    decreases t
  {
    hide Means, UnaryValue, BinaryValue, Memory, EncodeUleb;
    match t
    case One(u, t') =>
      TreeMeans(env, t', m);
      OneMeans(env, u, Code(env, t'), m, Evaluate(env, t'));
    case Two(b, l, r) =>
      TreeMeans(env, l, m);
      var x := Evaluate(env, l);
      TreeMeans(env, r, D.Machine([if x.Is? then x.v else 0] + m.stack, m.isRegister, m.cursor + |D.Assembled(Code(env, l))|));
      TwoMeans(env, b, Code(env, l), Code(env, r), m, x, Evaluate(env, r));
    case Increased(t', n) =>
      TreeMeans(env, t', m);
      IncreaseMeans(env, n, Code(env, t'), m, Evaluate(env, t'));
    case Loaded(t') =>
      TreeMeans(env, t', m);
      LoadMeans(env, Code(env, t'), m, Evaluate(env, t'));
    case LoadedBytes(t', n) =>
      TreeMeans(env, t', m);
      LoadBytesMeans(env, n, Code(env, t'), m, Evaluate(env, t'));
    case _ => LeafMeans(env, t, m);
  }

  lemma {:induction false} NeverDrops(env: D.Env, t: Tree)
    requires Encodable(env, t)
    ensures forall i :: i in Code(env, t) ==> i.op != 0x13
    decreases t
  {
    hide EncodeUleb, EncodeSleb, FixedBytes, Pow2;
    match t
    case One(_, t') => NeverDrops(env, t');
    case Two(_, l, r) =>
      NeverDrops(env, l);
      NeverDrops(env, r);
    case Increased(t', _) => NeverDrops(env, t');
    case Loaded(t') => NeverDrops(env, t');
    case LoadedBytes(t', _) => NeverDrops(env, t');
    case _ =>
  }

  /** Evaluating the bytes of a tree gives its value, and fails if it has none or if there are more than 1000 instructions. */
  lemma TreeIsEvaluated(env: D.Env, t: Tree, start: nat)
    requires env.Proper() && Encodable(env, t) && Holds(env.code, start, D.Assembled(Code(env, t)))
    ensures var result := D.Value(env, start, start + |D.Assembled(Code(env, t))|);
            if |Code(env, t)| > 1000 then result == None
            else
              match Evaluate(env, t)
              case Is(v) => result == Some((v, false))
              case Fails => result == None
              case Anything => true
  {
    hide Code, Encodable, Evaluate, D.Meaning, D.Evaluated, D.Assembled, D.Straight, D.Whole, D.OperandsOf, Holds, D.AllStraight;
    var code := Code(env, t);
    TreeMeans(env, t, D.Start(start));
    NeverDrops(env, t);
    D.EvalMeans(env, code, start);
    assert |code| >= 2 ==> code[1] in code;
  }

  // The opcodes that no tree needs.

  /** What one decode leaves: the stack, whether a register was named, and the place of the next opcode. */
  ghost predicate Decodes(env: D.Env, m: D.Machine, stack: seq<nat>, isRegister: bool, next: nat)
    requires env.Proper()
  {
    D.Decoded(env, m).Some? && D.Decoded(env, m).value.machine == D.Machine(stack, isRegister, next)
  }

  ghost predicate Refuses(env: D.Env, m: D.Machine)
    requires env.Proper()
  {
    D.Decoded(env, m) == None
  }

  /** The opcode that is next. */
  ghost predicate At(env: D.Env, m: D.Machine, op: Byte) {
    m.cursor < |env.code| && env.code[m.cursor] == op
  }

  lemma BareDecodes(env: D.Env, m: D.Machine, op: Byte, h: D.Handler, required: nat)
    requires env.Proper() && At(env, m, op) && D.Table(op, env.width) == D.Entry(h, required, []) && !h.Illegal?
    requires D.Touches(h) <= required && D.Uses(h) == 0 && !h.Lit? && (h.Reg? ==> op >= 0x50) && !h.Breg?
    ensures if |m.stack| < required then Refuses(env, m)
            else
              var m' := D.Handle(env, h, op, [], m.(cursor := m.cursor + 1));
              if m'.None? then Refuses(env, m) else Decodes(env, m, m'.value.stack, m'.value.isRegister, m'.value.cursor)
  {
    hide D.Table, D.Handle;
    var next: nat := m.cursor + 1;
    assert D.ReadOperands(env, env.code, next, []) == Some(([], next));
  }

  /** Copying, dropping and moving values: the top is the first of the stack. */
  lemma StackOpcodes(env: D.Env, m: D.Machine, op: Byte)
    requires env.Proper() && At(env, m, op)
    ensures var s, next := m.stack, m.cursor + 1;
            && (op == 0x12 ==> if |s| < 1 then Refuses(env, m) else Decodes(env, m, [s[0]] + s, m.isRegister, next))
            && (op == 0x13 ==> if |s| < 1 then Refuses(env, m) else Decodes(env, m, s[1..], m.isRegister, next))
            && (op == 0x14 ==> if |s| < 2 then Refuses(env, m) else Decodes(env, m, [s[1]] + s, m.isRegister, next))
            && (op == 0x16 ==> if |s| < 2 then Refuses(env, m) else Decodes(env, m, [s[1], s[0]] + s[2..], m.isRegister, next))
            && (op == 0x17 ==> if |s| < 3 then Refuses(env, m) else Decodes(env, m, [s[1], s[2], s[0]] + s[3..], m.isRegister, next))
            && (op == 0x96 ==> Decodes(env, m, s, m.isRegister, next))
            && (0x50 <= op < 0x70 ==> Decodes(env, m, [op - 0x50] + s, true, next))
  {
    hide D.Decoded;
    if op == 0x12 || op == 0x13 || op == 0x14 || op == 0x16 || op == 0x17 || op == 0x96 || 0x50 <= op < 0x70 {
      var entry := D.Table(op, env.width);
      BareDecodes(env, m, op, entry.handler, entry.required);
    }
  }

  lemma HeldFrom(code: seq<Byte>, at: nat, bytes: seq<Byte>)
    requires at + |bytes| <= |code| && forall k :: 0 <= k < |bytes| ==> code[at + k] == bytes[k]
    ensures Holds(code, at, bytes)
  {
  }

  /** An opcode with its operands, decoded where it stands. */
  lemma OperandsDecode(env: D.Env, m: D.Machine, i: D.Instr)
    requires env.Proper() && D.Whole(env, i) && Holds(env.code, m.cursor, [i.op] + i.bytes)
    ensures match D.Effect(env, i, m)
            case None => Refuses(env, m)
            case Some(m') => Decodes(env, m, m'.stack, m'.isRegister, m'.cursor)
  {
    hide D.Effect, D.Decoded, D.Whole;
    D.DecodeAssembled(env, i, m);
  }

  /** Picking by an index counted from the top. */
  lemma PickOpcode(env: D.Env, m: D.Machine, index: Byte)
    requires env.Proper() && Holds(env.code, m.cursor, [0x15, index])
    ensures if index < |m.stack| then Decodes(env, m, [m.stack[index]] + m.stack, m.isRegister, m.cursor + 2) else Refuses(env, m)
  {
    hide D.ReadOperands, D.OperandsOf, D.Whole, Holds;
    var i := D.Instr(0x15, [index]);
    OneByteOperand(env, i, index);
    assert [0x15, index] == [i.op] + i.bytes;
    OperandsDecode(env, m, i);
  }

  /** Naming a register by a number. */
  lemma RegisterOpcode(env: D.Env, m: D.Machine, reg: nat)
    requires env.Proper() && reg < env.Word() && Holds(env.code, m.cursor, [0x90] + EncodeUleb(reg))
    ensures Decodes(env, m, [reg] + m.stack, true, m.cursor + 1 + |EncodeUleb(reg)|)
  {
    hide D.ReadOperands, D.OperandsOf, D.Whole, Holds, EncodeUleb, Pow2;
    var i := D.Instr(0x90, EncodeUleb(reg));
    UlebOperand(env, i, reg);
    AddressFits(env, reg);
    OperandsDecode(env, m, i);
  }

  /** A displacement as the two bytes that stand after a branch. */
  function TwoBytes(d: int): seq<Byte>
    requires -0x8000 <= d < 0x8000
  {
    FixedBytes(if d < 0 then d + 0x1_0000 else d, 2)
  }

  lemma TwoBytePowers()
    ensures Pow2(16) == 0x1_0000 && Pow2(15) == 0x8000
  {
    Pow2Values();
    assert Pow2(8) == 256;
    hide Pow2;
    Pow2Sum(8, 8, 256, 256);
    Pow2Sum(8, 7, 256, 128);
  }

  lemma DisplacementIs(env: D.Env, d: int)
    requires env.Proper() && -0x8000 <= d < 0x8000
    ensures D.Displacement(d % env.Word()) == d
  {
    if env.width == 4 {
      assert d % 0x1_0000_0000 == if d < 0 then 0x1_0000_0000 + d else d;
    } else {
      assert d % W64 == if d < 0 then W64 + d else d;
    }
  }

  lemma DisplacementOperand(env: D.Env, i: D.Instr, d: int)
    requires env.Proper() && -0x8000 <= d < 0x8000 && i.bytes == TwoBytes(d) && D.Table(i.op, env.width).operands == [Signed(2)]
    ensures D.Whole(env, i) && |D.OperandsOf(env, i)| == 1 && D.Displacement(D.OperandsOf(env, i)[0]) == d
  {
    hide D.Table, Pow2, FixedBytes, D.Displacement, D.Whole, D.OperandsOf;
    TwoBytePowers();
    SignedOperand(env, i, d, 2);
    DisplacementIs(env, d);
  }

  /** A skip moves by its displacement from the place after it. */
  lemma SkipOpcode(env: D.Env, m: D.Machine, d: int)
    requires env.Proper() && -0x8000 <= d < 0x8000 && Holds(env.code, m.cursor, [0x2f] + TwoBytes(d))
    ensures Decodes(env, m, m.stack, m.isRegister, (m.cursor + 3 + d) % W64)
  {
    hide D.ReadOperands, D.OperandsOf, D.Whole, Holds, FixedBytes, D.Displacement;
    var i := D.Instr(0x2f, TwoBytes(d));
    DisplacementOperand(env, i, d);
    OperandsDecode(env, m, i);
  }

  /** A branch takes the top away and moves by its displacement if that is not zero, and backwards by it otherwise. */
  lemma BranchOpcode(env: D.Env, m: D.Machine, d: int)
    requires env.Proper() && -0x8000 <= d < 0x8000 && Holds(env.code, m.cursor, [0x28] + TwoBytes(d))
    ensures if m.stack == [] then Refuses(env, m)
            else Decodes(env, m, m.stack[1..], m.isRegister, (m.cursor + 3 + if m.stack[0] != 0 then d else 0 - d) % W64)
  {
    hide D.ReadOperands, D.OperandsOf, D.Whole, Holds, FixedBytes, D.Displacement;
    var i := D.Instr(0x28, TwoBytes(d));
    DisplacementOperand(env, i, d);
    OperandsDecode(env, m, i);
  }

  /** How many values an opcode needs on the stack. */
  function Needs(op: Byte): nat {
    if op == 0x17 then 3
    else if op == 0x14 || op == 0x16 || 0x1a <= op <= 0x1e || op == 0x21 || op == 0x22 || 0x24 <= op <= 0x27 || 0x29 <= op <= 0x2e then 2
    else if op == 0x06 || op == 0x12 || op == 0x13 || op == 0x19 || op == 0x1f || op == 0x20 || op == 0x23 || op == 0x28 || op == 0x94 then 1
    else 0
  }

  /** The opcodes that are implemented. */
  predicate Implemented(op: Byte) {
    op == 0x03 || op == 0x06 || 0x08 <= op <= 0x17 || 0x19 <= op <= 0x90 || op == 0x92 || op == 0x94 || op == 0x96
  }

  /** Any other opcode is refused, and so is one for which the stack is not deep enough. */
  lemma RefusedOpcodes(env: D.Env, m: D.Machine, op: Byte)
    requires env.Proper() && At(env, m, op) && (!Implemented(op) || |m.stack| < Needs(op))
    ensures Refuses(env, m)
  {
    hide D.ReadOperands;
    if Implemented(op) {
      NeedsAreRequired(op, env.width);
    } else {
      NotHandled(op, env.width);
    }
  }

  lemma NeedsAreRequired(op: Byte, width: nat)
    requires Implemented(op)
    ensures D.Table(op, width).required == Needs(op)
  {
  }

  lemma NotHandled(op: Byte, width: nat)
    requires !Implemented(op)
    ensures var h := D.Table(op, width).handler; h.Illegal? || h.NotImplemented?
  {
  }

  // Expressions that are more than a tree, or less.

  /** An expression that names a register, and an empty one, have no value. */
  lemma NoValue(env: D.Env, start: nat, reg: nat)
    requires env.Proper() && reg < 32
    ensures D.Value(env, start, start) == None
    ensures Holds(env.code, start, [0x50 + reg]) ==> D.Value(env, start, start + 1) == None
  {
    if Holds(env.code, start, [0x50 + reg]) {
      var op: Byte := 0x50 + reg;
      assert env.code[start..start + 1][0] == op;
      assert At(env, D.Start(start), op);
      hide D.Decoded;
      StackOpcodes(env, D.Start(start), op);
    }
  }

  /** The constant that spells DEX1, to be dropped. */
  function DexMark(): seq<D.Instr> {
    [D.Instr(0x0c, [0x44, 0x45, 0x58, 0x31]), D.Instr(0x13, [])]
  }

  lemma MarkOperand(env: D.Env)
    requires env.Proper()
    ensures var i := D.Instr(0x0c, [0x44, 0x45, 0x58, 0x31]); D.Whole(env, i) && D.OperandsOf(env, i) == [0x31584544]
  {
    var i := D.Instr(0x0c, [0x44, 0x45, 0x58, 0x31]);
    assert FixedBytes(0x31, 1) == [0x31] && FixedBytes(0x3158, 2) == [0x58] + FixedBytes(0x31, 1);
    assert FixedBytes(0x31584544, 4) == [0x44] + ([0x45] + FixedBytes(0x3158, 2));
    Pow2Values();
    hide Pow2, FixedBytes, D.Whole, D.OperandsOf;
    FixedOperand(env, i, 0x31584544, 4);
    if env.width == 4 {
      SmallMod(0x31584544, 0x1_0000_0000);
    } else {
      SmallMod(0x31584544, W64);
    }
  }

  lemma MarkMeans(env: D.Env, m: D.Machine)
    requires env.Proper()
    ensures D.AllStraight(env, DexMark()) && |D.Assembled(DexMark())| == 6
    ensures D.Meaning(env, DexMark(), m) == Some(m.(cursor := m.cursor + 6))
  {
    var i, j := DexMark()[0], DexMark()[1];
    MarkOperand(env);
    NoOperand(env, 0x13);
    hide D.Whole, D.OperandsOf, D.ReadOperands, D.PushAll;
    PushOne(m.stack, 0x31584544);
    var mid := m.(stack := [0x31584544] + m.stack, cursor := m.cursor + 5);
    assert D.Straight(env, i) && D.Effect(env, i, m) == Some(mid);
    assert mid.stack[1..] == m.stack;
    assert D.Straight(env, j) && D.Effect(env, j, mid) == Some(m.(cursor := m.cursor + 6));
    hide D.Straight, D.Effect;
    AloneMeans(env, i, m);
    AloneMeans(env, j, mid);
    assert DexMark() == [i] + [j];
    D.MeaningComposes(env, [i], [j], m);
    AssembledAppends([i], [j]);
  }

  /** A tree behind the mark has its value, as a dex pc. */
  lemma MarkedIsDexPc(env: D.Env, t: Tree, start: nat)
    requires env.Proper() && Encodable(env, t) && Evaluate(env, t).Is? && |Code(env, t)| <= 998
    requires Holds(env.code, start, D.Assembled(DexMark() + Code(env, t)))
    ensures D.Value(env, start, start + |D.Assembled(DexMark() + Code(env, t))|) == Some((Evaluate(env, t).v, true))
  {
    hide Code, Encodable, Evaluate, D.Meaning, D.Evaluated, D.Assembled, D.Whole, D.OperandsOf, Holds, D.AllStraight;
    var m, code := D.Start(start), DexMark() + Code(env, t);
    MarkMeans(env, m);
    MarkOperand(env);
    TreeMeans(env, t, m.(cursor := start + 6));
    D.MeaningComposes(env, DexMark(), Code(env, t), m);
    AssembledAppends(DexMark(), Code(env, t));
    D.EvalMeans(env, code, start);
    assert code[0] == DexMark()[0] && code[1] == DexMark()[1];
  }
}
