/** The ARM exception handling byte code (section 9.3 of IHI 0038B), run without logging. */
module ArmUnwind {
  import opened OrderedMap
  import opened DwarfMemory

  const W32 := 0x1_0000_0000
  const SP := 13
  const PC := 15

  datatype Status = Finish | Truncated | Spare | Reserved | NoUnwind | ReadFailed(addr: nat)

  /** An instruction: a change of the virtual stack pointer, a pop of registers in this order, or the end. */
  datatype Op = Adjust(delta: int) | SetVsp(reg: nat) | Pop(regs: seq<nat>) | Stop(status: Status)

  // The words that can be read, by address; and what shifting a 32-bit operand group out of range gives.
  type Words = map<nat, nat>
  type Wild = (nat, nat, nat) -> nat

  /** The registers of a mask, from the lowest bit on, which stands for `base`. */
  function MaskRegs(mask: nat, base: nat, bits: nat): seq<nat>
    decreases bits
  {
    if bits == 0 then [] else (if mask % 2 == 1 then [base] else []) + MaskRegs(mask / 2, base + 1, bits - 1)
  }

  /** In ascending order, exactly the registers whose bits are set. */
  lemma {:induction false} MaskRegsAre(mask: nat, base: nat, bits: nat)
    ensures forall i, j :: 0 <= i < j < |MaskRegs(mask, base, bits)| ==> MaskRegs(mask, base, bits)[i] < MaskRegs(mask, base, bits)[j]
    ensures forall r: nat :: r in MaskRegs(mask, base, bits) <==> base <= r < base + bits && BitSet(mask, r - base)
    decreases bits
  {
    if bits > 0 {
      MaskRegsAre(mask / 2, base + 1, bits - 1);
      var rest := MaskRegs(mask / 2, base + 1, bits - 1);
      forall r: nat
        ensures r in MaskRegs(mask, base, bits) <==> base <= r < base + bits && BitSet(mask, r - base)
      {
        assert r in MaskRegs(mask, base, bits) <==> (mask % 2 == 1 && r == base) || r in rest;
        if r > base {
          assert BitSet(mask, r - base) == BitSet(mask / 2, r - base - 1);
        }
      }
      assert forall j :: 0 <= j < |rest| ==> rest[j] in rest;
    }
  }

  predicate BitSet(mask: nat, k: nat) {
    if k == 0 then mask % 2 == 1 else BitSet(mask / 2, k - 1)
  }

  function Ascending(first: nat, count: nat): seq<nat> {
    seq(count, i requires 0 <= i < count => first + i)
  }

  /** The number of bits set among the lowest four. */
  function BitsOf4(b: nat): nat {
    b % 2 + b / 2 % 2 + b / 4 % 2 + b / 8 % 2
  }

  /** The group of seven bits put in its place in a 32-bit word; the bits below it are those of `result`, so that
      or-ing them is adding them. */
  function WithGroup(wild: Wild, result: nat, b: Byte, shift: nat): nat {
    if shift < 32 then (result + b % 128 * Pow2(shift)) % W32 else wild(result, b % 128, shift) % W32
  }

  /** The number at the front of the bytes, and how many bytes it took; none if the bytes end first. */
  function Uleb32(wild: Wild, data: seq<Byte>, result: nat, shift: nat): (r: Option<(nat, nat)>)
    ensures r.Some? ==> 0 < r.value.1 <= |data|
    decreases |data|
  {
    if data == [] then None
    else
      var result' := WithGroup(wild, result, data[0], shift);
      if data[0] < 128 then Some((result', 1))
      else
        var rest := Uleb32(wild, data[1..], result', shift + 7);
        if rest.None? then None else Some((rest.value.0, rest.value.1 + 1))
  }

  /** The instruction at the front of the bytes, and how many bytes it takes. */
  function Parse(wild: Wild, data: seq<Byte>): (r: (Op, nat))
    ensures r.1 <= |data| && (data != [] ==> r.1 > 0)
  {
    if data == [] then (Stop(Truncated), 0)
    else
      var b: nat := data[0];
      if b < 0x40 then (Adjust(b % 64 * 4 + 4), 1)
      else if b < 0x80 then (Adjust(0 - (b % 64 * 4 + 4)), 1)
      else if b < 0x90 then
        if |data| < 2 then (Stop(Truncated), 1)
        else
          var mask := b % 16 * 256 + data[1];
          (if mask == 0 then Stop(NoUnwind) else Pop(MaskRegs(mask, 4, 12)), 2)
      else if b < 0xa0 then (if b % 16 == SP || b % 16 == PC then Stop(Reserved) else SetVsp(b % 16), 1)
      else if b < 0xb0 then (Pop(Ascending(4, b % 8 + 1) + if b % 16 >= 8 then [14] else []), 1)
      else if b == 0xb0 then (Stop(Finish), 1)
      else if b == 0xb2 then
        var u := Uleb32(wild, data[1..], 0, 0);
        if u.None? then (Stop(Truncated), |data|) else (Adjust(0x204 + u.value.0 * 4 % W32), u.value.1 + 1)
      else if b == 0xb1 || b == 0xb3 || b == 0xc6 || b == 0xc7 || b == 0xc8 || b == 0xc9 then
        if |data| < 2 then (Stop(Truncated), 1) else (ParseTwo(b, data[1]), 2)
      else if 0xb8 <= b < 0xc0 then (Adjust(b % 8 * 8 + 12), 1)
      else if 0xc0 <= b < 0xc6 || 0xd0 <= b < 0xd8 then (Adjust(b % 8 * 8 + 8), 1)
      else (Stop(Spare), 1)
  }

  /** The instructions of two bytes that are not masks of twelve registers. */
  function ParseTwo(b: nat, c: Byte): Op
    requires b == 0xb1 || b == 0xb3 || b == 0xc6 || b == 0xc7 || b == 0xc8 || b == 0xc9
  {
    if b == 0xb1 then if c == 0 || c >= 16 then Stop(Spare) else Pop(MaskRegs(c, 0, 4))
    else if b == 0xb3 then Adjust(c % 16 * 8 + 12)
    else if b == 0xc7 then if c == 0 || c >= 16 then Stop(Spare) else Adjust(BitsOf4(c) * 4)
    else Adjust(c % 16 * 8 + 8)
  }

  /** A group and those above it, put in place one after the other. */
  lemma GroupScaled(result: nat, low: nat, rest: nat, p: nat)
    ensures ((result + low * p) % W32 + rest * (p * 128)) % W32 == (result + (low + 128 * rest) * p) % W32
  {
    assert (low + 128 * rest) * p == low * p + rest * (p * 128);
    ModOfSum(result + low * p, rest * (p * 128));
  }

  lemma ModOfSum(a: nat, b: nat)
    ensures (a % W32 + b) % W32 == (a + b) % W32
  {
  }

  /** The groups of an encoding that needs no undefined shift add up to the number it encodes. */
  lemma {:induction false} UlebOfEncoding(wild: Wild, bytes: seq<Byte>, rest: seq<Byte>, result: nat, shift: nat)
    requires IsEncoding(bytes) && shift + 7 * |bytes| <= 35 && result < W32
    ensures Uleb32(wild, bytes + rest, result, shift) == Some(((result + LowBits(bytes) * Pow2(shift)) % W32, |bytes|))
    decreases |bytes|
  {
    hide Pow2, LowBits;
    var above := bytes[1..];
    GroupAdded(bytes, result, shift);
    assert (bytes + rest)[0] == bytes[0] && (bytes + rest)[1..] == above + rest;
    if |bytes| > 1 {
      assert IsEncoding(above);
      hide IsEncoding;
      UlebOfEncoding(wild, above, rest, (result + bytes[0] % 128 * Pow2(shift)) % W32, shift + 7);
    }
  }

  lemma GroupAdded(bytes: seq<Byte>, result: nat, shift: nat)
    requires bytes != []
    ensures var result' := (result + bytes[0] % 128 * Pow2(shift)) % W32;
            && (result' + LowBits(bytes[1..]) * Pow2(shift + 7)) % W32 == (result + LowBits(bytes) * Pow2(shift)) % W32
            && (|bytes| == 1 ==> result' == (result + LowBits(bytes) * Pow2(shift)) % W32)
  {
    Pow2Values();
    Pow2Adds(shift, 7);
    hide Pow2;
    GroupScaled(result, bytes[0] % 128, LowBits(bytes[1..]), Pow2(shift));
  }

  /** One way to write each adjustment that can be written. */
  function EncodeAdjust(delta: int): seq<Byte>
    requires CanEncode(delta)
  {
    if 0 < delta <= 256 then [delta / 4 - 1]
    else if delta < 0 then [0x3f - delta / 4]
    else [0xb2] + EncodeUleb((delta - 0x204) / 4)
  }

  predicate CanEncode(delta: int) {
    delta % 4 == 0 && (0 < delta <= 256 || -256 <= delta < 0 || 0x204 <= delta < 0x204 + W32)
  }

  /** An encoded adjustment is parsed as that adjustment, and nothing after it is touched. */
  lemma AdjustRoundTrip(wild: Wild, delta: int, rest: seq<Byte>)
    requires CanEncode(delta)
    ensures Parse(wild, EncodeAdjust(delta) + rest) == (Adjust(delta), |EncodeAdjust(delta)|)
  {
    hide MaskRegs, Uleb32, EncodeUleb;
    if delta >= 0x204 {
      LargeAdjust(wild, (delta - 0x204) / 4, rest);
    }
  }

  lemma LargeAdjust(wild: Wild, x: nat, rest: seq<Byte>)
    requires x < W32 / 4
    ensures Parse(wild, [0xb2] + EncodeUleb(x) + rest) == (Adjust(0x204 + 4 * x), 1 + |EncodeUleb(x)|)
  {
    hide MaskRegs, Uleb32, EncodeUleb, LowBits, Pow2;
    FiveGroups(x);
    EncodeUlebEncodes(x, 5);
    var bytes := EncodeUleb(x);
    UlebOfEncoding(wild, bytes, rest, 0, 0);
    assert ([0xb2] + bytes + rest)[1..] == bytes + rest;
  }

  lemma FiveGroups(x: nat)
    requires x < W32
    ensures x < Pow2(7 * 5) && x * Pow2(0) % W32 == x
  {
    Pow2Values();
    Pow2Grows(32, 35);
    hide Pow2;
  }

  datatype State = State(regs: seq<nat>, cfa: nat, pcSet: bool)
  {
    ghost predicate Proper() {
      |regs| == 16 && cfa < W32
    }
  }

  /** A stack pointer moved, as a 32-bit word. */
  function Moved(cfa: nat, d: int): (r: nat)
    ensures r < W32
  {
    (cfa + d) % W32
  }

  lemma MovedTwice(cfa: nat, a: int, b: int)
    ensures Moved(Moved(cfa, a), b) == Moved(cfa, a + b)
    ensures cfa < W32 ==> Moved(cfa, 0) == cfa
  {
  }

  /** Registers popped one after another, until a word cannot be read. */
  function PopAll(words: Words, st: State, regs: seq<nat>): (r: (State, bool))
    requires st.Proper() && AllBelow(regs, 16)
    ensures r.0.Proper() && r.0.pcSet == st.pcSet
    decreases |regs|
  {
    if regs == [] then (st, true)
    else if st.cfa !in words then (st, false)
    else PopAll(words, st.(regs := st.regs[regs[0] := words[st.cfa] % W32], cfa := Moved(st.cfa, 4)), regs[1..])
  }

  predicate AllBelow(regs: seq<nat>, bound: nat) {
    forall i :: 0 <= i < |regs| ==> regs[i] < bound
  }

  predicate Encodable(op: Op) {
    match op
    case Pop(regs) => AllBelow(regs, 16) && forall i, j :: 0 <= i < j < |regs| ==> regs[i] < regs[j]
    case SetVsp(reg) => reg < 16
    case _ => true
  }

  /** Every pop is of registers in ascending order. */
  lemma ParseEncodable(wild: Wild, data: seq<Byte>)
    ensures Encodable(Parse(wild, data).0)
  {
    hide MaskRegs, Uleb32, BitsOf4;
    if data != [] {
      var b: nat := data[0];
      if 0x80 <= b < 0x90 && |data| >= 2 {
        MaskRegsAre(b % 16 * 256 + data[1], 4, 12);
        MaskRegsBelow(b % 16 * 256 + data[1], 4, 12);
      } else if b == 0xb1 && |data| >= 2 {
        MaskRegsAre(data[1], 0, 4);
        MaskRegsBelow(data[1], 0, 4);
      }
    }
  }

  lemma {:induction false} MaskRegsBelow(mask: nat, base: nat, bits: nat)
    ensures AllBelow(MaskRegs(mask, base, bits), base + bits)
    decreases bits
  {
    if bits > 0 {
      MaskRegsBelow(mask / 2, base + 1, bits - 1);
    }
  }

  /** What an instruction does, and the status if it is the last. */
  function Exec(words: Words, op: Op, st: State): (r: (State, Option<Status>))
    requires st.Proper() && Encodable(op)
    ensures r.0.Proper()
  {
    match op
    case Adjust(delta) => (st.(cfa := Moved(st.cfa, delta)), None)
    case SetVsp(reg) => (st.(cfa := st.regs[reg] % W32), None)
    case Stop(status) => (st, Some(status))
    case Pop(regs) =>
      var popped := PopAll(words, st, regs);
      if !popped.1 then (popped.0, Some(ReadFailed(popped.0.cfa)))
      else
        (popped.0.(cfa := if SP in regs then popped.0.regs[SP] % W32 else popped.0.cfa, pcSet := st.pcSet || PC in regs), None)
  }

  lemma ParseFinish(wild: Wild, data: seq<Byte>)
    ensures Parse(wild, data).0 == Stop(Finish) <==> data != [] && data[0] == 0xb0
    ensures data == [] ==> Parse(wild, data) == (Stop(Truncated), 0)
  {
    hide MaskRegs, Uleb32;
  }

  /** One instruction from the bytes: the state, the bytes left, and the status if it stops. */
  function Decoded(words: Words, wild: Wild, data: seq<Byte>, st: State): (r: (State, seq<Byte>, Option<Status>))
    requires st.Proper()
    ensures r.0.Proper() && (r.2.None? ==> |r.1| < |data|)
  {
    ParseEncodable(wild, data);
    ParseFinish(wild, data);
    var p := Parse(wild, data);
    var e := Exec(words, p.0, st);
    (e.0, data[p.1..], e.1)
  }

  /** Decoding until an instruction says to stop. Each takes a byte or more, and no bytes are the end. */
  function Evaluate(words: Words, wild: Wild, data: seq<Byte>, st: State): (r: (State, Status))
    requires st.Proper()
    ensures r.0.Proper()
    decreases |data|
  {
    var d := Decoded(words, wild, data, st);
    if d.2.Some? then (d.0, d.2.value) else Evaluate(words, wild, d.1, d.0)
  }

  /** The bytes left and the state after n instructions, none of which stopped. */
  function After(words: Words, wild: Wild, data: seq<Byte>, st: State, n: nat): (r: Option<(seq<Byte>, State)>)
    requires st.Proper()
    ensures r.Some? ==> r.value.1.Proper()
    decreases n
  {
    if n == 0 then Some((data, st))
    else
      var d := Decoded(words, wild, data, st);
      if d.2.Some? then None else After(words, wild, d.1, d.0, n - 1)
  }

  /** After n instructions the next byte in opcode position is the finish code. */
  ghost predicate FinishAt(words: Words, wild: Wild, data: seq<Byte>, st: State, n: nat)
    requires st.Proper()
  {
    var after := After(words, wild, data, st, n);
    after.Some? && after.value.0 != [] && after.value.0[0] == 0xb0
  }

  lemma DecodedFinish(words: Words, wild: Wild, data: seq<Byte>, st: State)
    requires st.Proper()
    ensures Decoded(words, wild, data, st).2 == Some(Finish) <==> data != [] && data[0] == 0xb0
  {
    hide Parse, PopAll;
    ParseEncodable(wild, data);
    ParseFinish(wild, data);
  }

  lemma FinishNow(words: Words, wild: Wild, data: seq<Byte>, st: State)
    requires st.Proper()
    ensures FinishAt(words, wild, data, st, 0) <==> data != [] && data[0] == 0xb0
  {
    hide Decoded;
  }

  lemma FinishLater(words: Words, wild: Wild, data: seq<Byte>, st: State, n: nat)
    requires st.Proper() && n > 0
    ensures var d := Decoded(words, wild, data, st);
            FinishAt(words, wild, data, st, n) <==> d.2.None? && FinishAt(words, wild, d.1, d.0, n - 1)
  {
    hide Decoded;
  }

  /** Evaluation succeeds exactly when a finish code is reached in opcode position. */
  lemma {:induction false} FinishesIffReached(words: Words, wild: Wild, data: seq<Byte>, st: State)
    requires st.Proper()
    ensures Evaluate(words, wild, data, st).1 == Finish <==> exists n: nat :: FinishAt(words, wild, data, st, n)
    decreases |data|
  {
    hide Decoded, FinishAt;
    var d := Decoded(words, wild, data, st);
    DecodedFinish(words, wild, data, st);
    FinishNow(words, wild, data, st);
    if n: nat :| n > 0 && FinishAt(words, wild, data, st, n) {
      FinishLater(words, wild, data, st, n);
    }
    if d.2.None? {
      FinishesIffReached(words, wild, d.1, d.0);
      if n: nat :| FinishAt(words, wild, d.1, d.0, n) {
        FinishLater(words, wild, data, st, n + 1);
      }
    }
  }

  /** The instructions the bytes stand for, up to and with the one that stops. */
  function Program(wild: Wild, data: seq<Byte>): seq<Op>
    decreases |data|
  {
    var p := Parse(wild, data);
    if p.0.Stop? then [p.0] else [p.0] + Program(wild, data[p.1..])
  }

  ghost predicate AllEncodable(ops: seq<Op>) {
    forall i :: 0 <= i < |ops| ==> Encodable(ops[i])
  }

  function RunOps(words: Words, ops: seq<Op>, st: State): (r: (State, Option<Status>))
    requires st.Proper() && AllEncodable(ops)
    ensures r.0.Proper()
    decreases |ops|
  {
    if ops == [] then (st, None)
    else
      var e := Exec(words, ops[0], st);
      if e.1.Some? then e else RunOps(words, ops[1..], e.0)
  }

  /** Evaluating the bytes is running the instructions they stand for. */
  lemma {:induction false} EvaluateRunsProgram(words: Words, wild: Wild, data: seq<Byte>, st: State)
    requires st.Proper()
    ensures AllEncodable(Program(wild, data))
    ensures var r := Evaluate(words, wild, data, st); RunOps(words, Program(wild, data), st) == (r.0, Some(r.1))
    decreases |data|
  {
    hide Parse, Exec, Encodable, RunOps, AllEncodable;
    ParseEncodable(wild, data);
    ParseFinish(wild, data);
    var p := Parse(wild, data);
    if p.0.Stop? {
      StopRuns(words, p.0, st);
    } else {
      var rest := Program(wild, data[p.1..]);
      EvaluateRunsProgram(words, wild, data[p.1..], st);
      OneMoreOp(words, p.0, rest, st);
      var e := Exec(words, p.0, st);
      if e.1.None? {
        EvaluateRunsProgram(words, wild, data[p.1..], e.0);
      }
    }
  }

  lemma StopRuns(words: Words, op: Op, st: State)
    requires st.Proper() && Encodable(op) && op.Stop?
    ensures AllEncodable([op]) && RunOps(words, [op], st) == Exec(words, op, st) == (st, Some(op.status))
  {
  }

  lemma OneMoreOp(words: Words, op: Op, rest: seq<Op>, st: State)
    requires st.Proper() && Encodable(op) && AllEncodable(rest)
    ensures AllEncodable([op] + rest)
    ensures var e := Exec(words, op, st); RunOps(words, [op] + rest, st) == if e.1.Some? then e else RunOps(words, rest, e.0)
  {
    hide Exec, Encodable;
    assert ([op] + rest)[1..] == rest;
  }

  // Programs of adjustments and pops.

  /** A pop of registers without the stack pointer, or an adjustment. */
  predicate Plain(op: Op) {
    match op
    case Adjust(_) => true
    case Pop(regs) => SP !in regs
    case _ => false
  }

  function Delta(op: Op): int {
    match op
    case Adjust(delta) => delta
    case Pop(regs) => 4 * |regs|
    case _ => 0
  }

  function Total(ops: seq<Op>): int {
    if ops == [] then 0 else Total(ops[..|ops| - 1]) + Delta(ops[|ops| - 1])
  }

  function IndexOf(regs: seq<nat>, r: nat): (i: nat)
    requires r in regs
    ensures i < |regs| && regs[i] == r
  {
    if regs[0] == r then 0 else 1 + IndexOf(regs[1..], r)
  }

  /** Where, from the initial stack pointer, the last pop of a register finds it. */
  function Slot(ops: seq<Op>, r: nat): Option<int> {
    if ops == [] then None
    else
      var before, last := ops[..|ops| - 1], ops[|ops| - 1];
      if last.Pop? && r in last.regs then Some(Total(before) + 4 * IndexOf(last.regs, r)) else Slot(before, r)
  }

  lemma {:induction false} PopAllGives(words: Words, st: State, regs: seq<nat>)
    requires st.Proper() && AllBelow(regs, 16) && PopAll(words, st, regs).1
    requires forall i, j :: 0 <= i < j < |regs| ==> regs[i] != regs[j]
    ensures var end := PopAll(words, st, regs).0;
            && end.cfa == Moved(st.cfa, 4 * |regs|)
            && (forall r :: 0 <= r < 16 && r !in regs ==> end.regs[r] == st.regs[r])
            && forall i :: 0 <= i < |regs| ==> HoldsWord(words, end, regs[i], Moved(st.cfa, 4 * i))
    decreases |regs|
  {
    hide Moved;
    MovedTwice(st.cfa, 0, 0);
    if regs != [] {
      var next := st.(regs := st.regs[regs[0] := words[st.cfa] % W32], cfa := Moved(st.cfa, 4));
      var rest := regs[1..];
      PopAllGives(words, next, rest);
      var end := PopAll(words, st, regs).0;
      assert end == PopAll(words, next, rest).0 && regs[0] !in rest;
      hide PopAll;
      MovedTwice(st.cfa, 4, 4 * |rest|);
      forall i | 0 <= i < |regs|
        ensures HoldsWord(words, end, regs[i], Moved(st.cfa, 4 * i))
      {
        if i > 0 {
          MovedTwice(st.cfa, 4, 4 * (i - 1));
          assert HoldsWord(words, end, rest[i - 1], Moved(next.cfa, 4 * (i - 1)));
        }
      }
    }
  }

  ghost predicate HoldsWord(words: Words, st: State, r: nat, addr: nat) {
    r < |st.regs| && addr in words && st.regs[r] == words[addr] % W32
  }

  lemma {:induction false} RunOpsSplit(words: Words, ops: seq<Op>, op: Op, st: State)
    requires st.Proper() && AllEncodable(ops) && Encodable(op)
    ensures AllEncodable(ops + [op])
    ensures var first := RunOps(words, ops, st);
            RunOps(words, ops + [op], st) == if first.1.Some? then first else Exec(words, op, first.0)
    decreases |ops|
  {
    hide Exec, Encodable;
    if ops == [] {
      var e := Exec(words, op, st);
      assert ([] + [op])[1..] == [];
    } else {
      assert (ops + [op])[1..] == ops[1..] + [op];
      var e := Exec(words, ops[0], st);
      if e.1.None? {
        RunOpsSplit(words, ops[1..], op, e.0);
      }
    }
  }

  /** What a run of adjustments and pops leaves: the stack pointer moved by the sum, and every register with the word of
      its last slot, or as it was if it was never popped. */
  ghost predicate Settled(words: Words, ops: seq<Op>, st: State, end: State)
    requires st.Proper()
  {
    && end.Proper() && end.cfa == Moved(st.cfa, Total(ops))
    && forall r :: 0 <= r < 16 ==> RegSettled(words, Slot(ops, r), st, end, r)
  }

  ghost predicate RegSettled(words: Words, slot: Option<int>, st: State, end: State, r: nat)
    requires st.Proper() && end.Proper() && r < 16
  {
    match slot
    case None => end.regs[r] == st.regs[r]
    case Some(offset) => HoldsWord(words, end, r, Moved(st.cfa, offset))
  }

  lemma {:induction false} RunSettles(words: Words, ops: seq<Op>, st: State)
    requires st.Proper() && AllEncodable(ops) && (forall i :: 0 <= i < |ops| ==> Plain(ops[i])) && RunOps(words, ops, st).1 == None
    ensures Settled(words, ops, st, RunOps(words, ops, st).0)
    decreases |ops|
  {
    MovedTwice(st.cfa, 0, 0);
    if ops != [] {
      var before, last := ops[..|ops| - 1], ops[|ops| - 1];
      assert ops == before + [last];
      RunOpsSplit(words, before, last, st);
      RunSettles(words, before, st);
      var mid := RunOps(words, before, st).0;
      OpSettles(words, before, last, st, mid);
    }
  }

  lemma OpSettles(words: Words, before: seq<Op>, last: Op, st: State, mid: State)
    requires st.Proper() && Settled(words, before, st, mid) && Encodable(last) && Plain(last) && Exec(words, last, mid).1 == None
    ensures Settled(words, before + [last], st, Exec(words, last, mid).0)
  {
    hide Moved, PopAll, Slot;
    var ops := before + [last];
    var end := Exec(words, last, mid).0;
    assert ops[..|ops| - 1] == before;
    MovedTwice(st.cfa, Total(before), Delta(last));
    ExecGives(words, last, mid);
    hide Exec, Total;
    forall r | 0 <= r < 16
      ensures RegSettled(words, Slot(ops, r), st, end, r)
    {
      if last.Pop? && r in last.regs {
        var i := IndexOf(last.regs, r);
        assert HoldsWord(words, end, last.regs[i], Moved(mid.cfa, 4 * i));
      }
      SlotSettles(words, before, last, st, mid, end, r);
    }
  }

  /** What one adjustment or pop does to the stack pointer and the registers. */
  lemma ExecGives(words: Words, op: Op, st: State)
    requires st.Proper() && Encodable(op) && Plain(op) && Exec(words, op, st).1 == None
    ensures var end := Exec(words, op, st).0;
            && end.cfa == Moved(st.cfa, Delta(op))
            && (forall r :: 0 <= r < 16 && !(op.Pop? && r in op.regs) ==> end.regs[r] == st.regs[r])
            && (op.Pop? ==> forall i :: 0 <= i < |op.regs| ==> HoldsWord(words, end, op.regs[i], Moved(st.cfa, 4 * i)))
  {
    hide Moved, PopAll;
    if op.Pop? {
      PopAllGives(words, st, op.regs);
      var popped, end := PopAll(words, st, op.regs).0, Exec(words, op, st).0;
      forall i | 0 <= i < |op.regs|
        ensures HoldsWord(words, end, op.regs[i], Moved(st.cfa, 4 * i))
      {
        assert HoldsWord(words, popped, op.regs[i], Moved(st.cfa, 4 * i));
      }
    }
  }

  lemma SlotSettles(words: Words, before: seq<Op>, last: Op, st: State, mid: State, end: State, r: nat)
    requires st.Proper() && end.Proper() && r < 16 && Settled(words, before, st, mid)
    requires if last.Pop? && r in last.regs then HoldsWord(words, end, r, Moved(mid.cfa, 4 * IndexOf(last.regs, r)))
             else end.regs[r] == mid.regs[r]
    ensures RegSettled(words, Slot(before + [last], r), st, end, r)
  {
    hide Moved, Total, IndexOf;
    var ops := before + [last];
    assert ops[..|ops| - 1] == before;
    assert RegSettled(words, Slot(before, r), st, mid, r);
    if last.Pop? && r in last.regs {
      MovedTwice(st.cfa, Total(before), 4 * IndexOf(last.regs, r));
    }
  }

  /** For a program of adjustments and pops that finishes: the stack pointer ends at its start plus the sum of what the
      instructions add, modulo 2^32, and every popped register holds the word of its last slot. */
  lemma FinishedProgramSettles(words: Words, wild: Wild, data: seq<Byte>, st: State)
    requires st.Proper() && Evaluate(words, wild, data, st).1 == Finish
    requires var ops := Program(wild, data); forall i :: 0 <= i < |ops| - 1 ==> Plain(ops[i])
    ensures var ops := Program(wild, data); Settled(words, ops[..|ops| - 1], st, Evaluate(words, wild, data, st).0)
  {
    EvaluateRunsProgram(words, wild, data, st);
    var ops := Program(wild, data);
    var before, last := ops[..|ops| - 1], ops[|ops| - 1];
    hide Program, Evaluate, Parse;
    assert ops == before + [last];
    RunOpsSplit(words, before, last, st);
    PlainNeverFinishes(words, before, st);
    RunSettles(words, before, st);
  }

  lemma {:induction false} PlainNeverFinishes(words: Words, ops: seq<Op>, st: State)
    requires st.Proper() && AllEncodable(ops) && forall i :: 0 <= i < |ops| ==> Plain(ops[i])
    ensures RunOps(words, ops, st).1 != Some(Finish)
    decreases |ops|
  {
    if ops != [] && Exec(words, ops[0], st).1.None? {
      PlainNeverFinishes(words, ops[1..], Exec(words, ops[0], st).0);
    }
  }

  /** A number read after so many more bytes. */
  function Shifted(u: Option<(nat, nat)>, taken: nat): Option<(nat, nat)> {
    if u.None? then None else Some((u.value.0, u.value.1 + taken))
  }

  class ArmExidx {
    const words: Words
    const wild: Wild
    var data: seq<Byte>
    var regs: seq<nat>
    var cfa: nat
    var pcSet: bool
    var status: Option<Status>

    constructor (words: Words, wild: Wild, data: seq<Byte>, regs: seq<nat>, cfa: nat)
      requires |regs| == 16 && cfa < W32
      ensures Current() == State(regs, cfa, false) && this.data == data && this.words == words && this.wild == wild
    {
      this.words, this.wild, this.data, this.regs, this.cfa, pcSet, status := words, wild, data, regs, cfa, false, None;
    }

    function Current(): State
      reads this
    {
      State(regs, cfa, pcSet)
    }

    method GetByte() returns (byte: Option<Byte>)
      modifies this`data, this`status
      ensures old(data) == [] ==> byte == None && status == Some(Truncated) && data == []
      ensures old(data) != [] ==> byte == Some(old(data)[0]) && data == old(data)[1..] && status == old(status)
    {
      if data == [] {
        status := Some(Truncated);
        return None;
      }
      byte := Some(data[0]);
      data := data[1..];
    }

    method PopOne(reg: nat) returns (ok: bool)
      requires Current().Proper() && reg < 16
      modifies this`regs, this`cfa, this`status
      ensures ok == (old(cfa) in words)
      ensures ok ==> Current() == old(Current()).(regs := old(regs)[reg := words[old(cfa)] % W32], cfa := Moved(old(cfa), 4)) && status == old(status)
      ensures !ok ==> Current() == old(Current()) && status == Some(ReadFailed(cfa))
    {
      if cfa !in words {
        status := Some(ReadFailed(cfa));
        return false;
      }
      regs := regs[reg := words[cfa] % W32];
      cfa := (cfa + 4) % W32;
      ok := true;
    }

    /** Pops the registers of a mask, the lowest bit first. */
    method PopMask(mask: nat, base: nat, bits: nat) returns (ok: bool)
      requires Current().Proper() && base + bits <= 16 && AllBelow(MaskRegs(mask, base, bits), 16)
      modifies this`regs, this`cfa, this`status
      ensures (Current(), ok) == PopAll(words, old(Current()), MaskRegs(mask, base, bits))
      ensures ok ==> status == old(status)
      ensures !ok ==> status == Some(ReadFailed(cfa))
    {
      var left, reg := mask, base;
      while reg < base + bits
        invariant base <= reg <= base + bits && Current().Proper() && status == old(status)
        invariant AllBelow(MaskRegs(left, reg, base + bits - reg), 16)
        invariant PopAll(words, Current(), MaskRegs(left, reg, base + bits - reg)) == PopAll(words, old(Current()), MaskRegs(mask, base, bits))
      {
        MaskRegsBelow(left / 2, reg + 1, base + bits - reg - 1);
        if left % 2 == 1 {
          assert MaskRegs(left, reg, base + bits - reg)[1..] == MaskRegs(left / 2, reg + 1, base + bits - reg - 1);
          ok := PopOne(reg);
          if !ok {
            return;
          }
        } else {
          assert MaskRegs(left, reg, base + bits - reg) == MaskRegs(left / 2, reg + 1, base + bits - reg - 1);
        }
        left, reg := left / 2, reg + 1;
      }
      ok := true;
    }

    /** r4 to r[4 + last], and r14 if `link` is set. */
    method PopRange(last: nat, link: bool) returns (ok: bool)
      requires Current().Proper() && last < 8
      modifies this`regs, this`cfa, this`status
      ensures AllBelow(Ascending(4, last + 1) + if link then [14] else [], 16)
      ensures (Current(), ok) == PopAll(words, old(Current()), Ascending(4, last + 1) + if link then [14] else [])
      ensures ok ==> status == old(status)
      ensures !ok ==> status == Some(ReadFailed(cfa))
    {
      ghost var all := Ascending(4, last + 1) + if link then [14] else [];
      ghost var start := Current();
      var i := 0;
      assert all[0..] == all;
      while i <= last
        invariant i <= last + 1 && Current().Proper() && status == old(status)
        invariant PopAll(words, Current(), all[i..]) == PopAll(words, start, all)
      {
        assert all[i..][1..] == all[i + 1..] && all[i..][0] == 4 + i;
        ok := PopOne(4 + i);
        if !ok {
          return;
        }
        i := i + 1;
      }
      if link {
        assert all[i..] == [14] && all[i..][1..] == [];
        ok := PopOne(14);
        if !ok {
          return;
        }
      } else {
        assert all[i..] == [];
      }
      ok := true;
    }

    /** Adds a number of bytes to the virtual stack pointer. */
    method Advance(delta: int)
      requires Current().Proper()
      modifies this`cfa
      ensures Current() == Exec(words, Adjust(delta), old(Current())).0
    {
      cfa := (cfa + delta) % W32;
    }

    method Refuse(why: Status) returns (ok: bool)
      modifies this`status
      ensures !ok && status == Some(why)
    {
      status := Some(why);
      ok := false;
    }

    /** 1000iiii iiiiiiii: pops a mask of r4 to r15, or refuses. */
    method DecodePopMask(b: Byte) returns (ok: bool)
      requires Current().Proper() && 0x80 <= b < 0x90
      modifies this
      ensures Current().Proper() && (Current(), data, if ok then None else status) == Decoded(words, wild, [b] + old(data), old(Current()))
      ensures !ok ==> status.Some?
    {
      hide MaskRegs, Uleb32, PopAll, Moved, BitSet;
      ghost var all := [b] + data;
      assert all[1..] == data;
      var second := GetByte();
      if second.None? {
        return false;
      }
      assert all[2..] == data && all[1] == second.value;
      var mask: nat := (b as nat) % 16 * 256 + second.value;
      if mask == 0 {
        ok := Refuse(NoUnwind);
        return;
      }
      MaskRegsAre(mask, 4, 12);
      MaskRegsBelow(mask, 4, 12);
      ok := PopMask(mask, 4, 12);
      if !ok {
        return;
      }
      if BitSet(mask, SP - 4) {
        cfa := regs[SP] % W32;
      }
      if BitSet(mask, PC - 4) {
        pcSet := true;
      }
    }

    /** 1010lnnn: pops r4 to r[4 + nnn], and r14 with l set. */
    method DecodePopRange(b: Byte) returns (ok: bool)
      requires Current().Proper() && 0xa0 <= b < 0xb0
      modifies this`regs, this`cfa, this`status
      ensures Current().Proper() && (Current(), data, if ok then None else status) == Decoded(words, wild, [b] + old(data), old(Current()))
      ensures !ok ==> status.Some?
    {
      hide PopAll;
      assert ([b] + data)[1..] == data;
      ok := PopRange((b as nat) % 8, b % 16 >= 8);
    }

    /** 10110010 uleb128. */
    method DecodeUleb(b: Byte) returns (ok: bool)
      requires Current().Proper() && b == 0xb2
      modifies this`cfa, this`data, this`status
      ensures Current().Proper() && (Current(), data, if ok then None else status) == Decoded(words, wild, [b] + old(data), old(Current()))
      ensures !ok ==> status.Some?
    {
      hide MaskRegs, PopAll, WithGroup;
      ghost var all := [b] + data;
      assert all[1..] == data;
      var result: nat, shift: nat, more := 0, 0, true;
      ghost var taken: nat := 0;
      while more
        invariant Current() == old(Current()) && taken <= |all| - 1 && data == all[1 + taken..] && status == old(status)
        invariant more ==> Uleb32(wild, all[1..], 0, 0) == Shifted(Uleb32(wild, data, result, shift), taken)
        invariant !more ==> Uleb32(wild, all[1..], 0, 0) == Some((result, taken))
        decreases more, |data|
      {
        ghost var before := data;
        var byte := GetByte();
        if byte.None? {
          assert all[|all|..] == [];
          return false;
        }
        result := WithGroup(wild, result, byte.value, shift);
        shift, more, taken := shift + 7, byte.value >= 128, taken + 1;
      }
      Advance(0x204 + result * 4 % W32);
      ok := true;
    }

    /** 1011xxxx. */
    method DecodePrefix1011(b: Byte) returns (ok: bool)
      requires Current().Proper() && 0xb0 <= b < 0xc0
      modifies this
      ensures Current().Proper() && (Current(), data, if ok then None else status) == Decoded(words, wild, [b] + old(data), old(Current()))
      ensures !ok ==> status.Some?
    {
      hide MaskRegs, Uleb32, PopAll, Moved;
      ghost var all := [b] + data;
      assert all[1..] == data;
      if b == 0xb0 {
        ok := Refuse(Finish);
      } else if b == 0xb1 || b == 0xb3 {
        var second := GetByte();
        if second.None? {
          return false;
        }
        assert all[2..] == data && all[1] == second.value;
        var c: nat := second.value;
        if b == 0xb3 {
          Advance(c % 16 * 8 + 12);
          ok := true;
        } else if c == 0 || c >= 16 {
          ok := Refuse(Spare);
        } else {
          MaskRegsAre(c, 0, 4);
          MaskRegsBelow(c, 0, 4);
          ok := PopMask(c, 0, 4);
        }
      } else if b == 0xb2 {
        ok := DecodeUleb(b);
      } else if b < 0xb8 {
        ok := Refuse(Spare);
      } else {
        Advance((b as nat) % 8 * 8 + 12);
        ok := true;
      }
    }

    /** The prefixes 10000000 to 10111111, with `b` the first byte. */
    method DecodePrefix10(b: Byte) returns (ok: bool)
      requires Current().Proper() && 0x80 <= b < 0xc0
      modifies this
      ensures Current().Proper() && (Current(), data, if ok then None else status) == Decoded(words, wild, [b] + old(data), old(Current()))
      ensures !ok ==> status.Some?
    {
      hide MaskRegs, Uleb32, PopAll;
      assert ([b] + data)[1..] == data;
      if b < 0x90 {
        ok := DecodePopMask(b);
      } else if b < 0xa0 {
        var bits := (b as nat) % 16;
        if bits == SP || bits == PC {
          ok := Refuse(Reserved);
        } else {
          cfa := regs[bits] % W32;
          ok := true;
        }
      } else if b < 0xb0 {
        ok := DecodePopRange(b);
      } else {
        ok := DecodePrefix1011(b);
      }
    }

    /** The prefixes 11000000 to 11111111, with `b` the first byte. */
    method DecodePrefix11(b: Byte) returns (ok: bool)
      requires Current().Proper() && 0xc0 <= b
      modifies this`cfa, this`data, this`status
      ensures Current().Proper() && (Current(), data, if ok then None else status) == Decoded(words, wild, [b] + old(data), old(Current()))
      ensures !ok ==> status.Some?
    {
      hide MaskRegs, Uleb32, PopAll;
      ghost var all := [b] + data;
      assert all[1..] == data;
      if 0xc6 <= b <= 0xc9 {
        var second := GetByte();
        if second.None? {
          return false;
        }
        assert all[2..] == data && all[1] == second.value;
        var c: nat := second.value;
        if b != 0xc7 {
          Advance(c % 16 * 8 + 8);
        } else if c == 0 || c >= 16 {
          ok := Refuse(Spare);
          return;
        } else {
          Advance(BitsOf4(c) * 4);
        }
      } else if b < 0xc6 || 0xd0 <= b < 0xd8 {
        Advance(b % 8 * 8 + 8);
      } else {
        ok := Refuse(Spare);
        return;
      }
      ok := true;
    }

    /** One instruction; false when evaluation is to stop, for the reason in the status. */
    method Decode() returns (ok: bool)
      requires Current().Proper()
      modifies this
      ensures Current().Proper() && (Current(), data, if ok then None else status) == Decoded(words, wild, old(data), old(Current()))
      ensures !ok ==> status.Some?
    {
      hide MaskRegs, Uleb32, PopAll;
      status := None;
      var first := GetByte();
      if first.None? {
        return false;
      }
      var b := first.value;
      assert old(data) == [b] + data;
      if b < 0x40 {
        Advance((b as nat) % 64 * 4 + 4);
        ok := true;
      } else if b < 0x80 {
        Advance(0 - ((b as nat) % 64 * 4 + 4));
        ok := true;
      } else if b < 0xc0 {
        ok := DecodePrefix10(b);
      } else {
        ok := DecodePrefix11(b);
      }
    }

    /** True exactly when the status is finish; the loop ends because every instruction takes a byte. */
    method Eval() returns (ok: bool)
      requires Current().Proper()
      modifies this
      ensures Current().Proper() && status.Some?
      ensures (Current(), status.value) == Evaluate(words, wild, old(data), old(Current()).(pcSet := false))
      ensures ok <==> status == Some(Finish)
    {
      hide Decoded;
      pcSet := false;
      ghost var start := Current();
      var going := true;
      while going
        invariant Current().Proper() && (!going ==> status.Some?)
        invariant (if going then Evaluate(words, wild, data, Current()) else (Current(), status.value)) == Evaluate(words, wild, old(data), start)
        decreases going, |data|
      {
        going := Decode();
      }
      ok := status == Some(Finish);
    }
  }
}
