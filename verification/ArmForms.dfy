/** The instructions of the ARM exception handling byte code as the standard lists them (table 4 of IHI 0038B): how each is
    written, and what it stands for. */
module ArmForms {
  import opened OrderedMap
  import opened DwarfMemory
  import opened ArmUnwind

  datatype Form =
    | Up(n: nat)
    | Down(n: nat)
    | UpFar(n: nat)
    | PopHigh(regs: set<nat>)
    | PopLow(regs: set<nat>)
    | PopRun(count: nat, link: bool)
    | FromRegister(reg: nat)
    | VfpX(first: nat, count: nat)
    | VfpXRun(count: nat)
    | VfpHigh(first: nat, count: nat)
    | VfpLow(first: nat, count: nat)
    | VfpRun(count: nat)
    | WmmxRun(count: nat)
    | Wmmx(first: nat, count: nat)
    | WmmxControl(regs: set<nat>)
    | End

  ghost predicate Among(regs: set<nat>, from: nat, to: nat) {
    regs != {} && forall r :: r in regs ==> from <= r < to
  }

  predicate InSixteen(first: nat, count: nat) {
    first < 16 && 0 < count <= 16
  }

  /** What has a code: a stack pointer can be set from any register but r13 and r15. */
  ghost predicate Writable(i: Form) {
    match i
    case Up(n) => n < 64
    case Down(n) => n < 64
    case UpFar(n) => n < 0x4000_0000
    case PopHigh(regs) => Among(regs, 4, 16)
    case PopLow(regs) => Among(regs, 0, 4)
    case PopRun(count, _) => 0 < count <= 8
    case FromRegister(reg) => reg < 16 && reg != 13 && reg != 15
    case VfpX(first, count) => InSixteen(first, count)
    case VfpXRun(count) => 0 < count <= 8
    case VfpHigh(first, count) => InSixteen(first, count)
    case VfpLow(first, count) => InSixteen(first, count)
    case VfpRun(count) => 0 < count <= 8
    case WmmxRun(count) => 0 < count <= 6
    case Wmmx(first, count) => InSixteen(first, count)
    case WmmxControl(regs) => Among(regs, 0, 4)
    case End => true
  }

  /** A bit for each register from `base` on, the lowest first. */
  ghost function MaskOf(regs: set<nat>, base: nat, bits: nat): nat
    decreases bits
  {
    if bits == 0 then 0 else (if base in regs then 1 else 0) + 2 * MaskOf(regs, base + 1, bits - 1)
  }

  lemma {:induction false} MaskBound(regs: set<nat>, base: nat, bits: nat)
    ensures MaskOf(regs, base, bits) < Pow2(bits)
    decreases bits
  {
    if bits > 0 {
      MaskBound(regs, base + 1, bits - 1);
    }
  }

  lemma MaskBytes(regs: set<nat>, base: nat)
    ensures MaskOf(regs, base, 4) < 16 && MaskOf(regs, base, 12) < 4096
  {
    MaskBound(regs, base, 4);
    MaskBound(regs, base, 12);
    assert Pow2(4) == 16;
    Pow2Adds(4, 8);
    assert Pow2(8) == 256;
  }

  ghost function Written(i: Form): seq<Byte>
    requires Writable(i)
  {
    match i
    case Up(n) => [n]
    case Down(n) => [0x40 + n]
    case UpFar(n) => [0xb2] + EncodeUleb(n)
    case PopHigh(regs) =>
      MaskBytes(regs, 4);
      [0x80 + MaskOf(regs, 4, 12) / 256, MaskOf(regs, 4, 12) % 256]
    case PopLow(regs) =>
      MaskBytes(regs, 0);
      [0xb1, MaskOf(regs, 0, 4)]
    case PopRun(count, link) => [0xa0 + (count - 1) + if link then 8 else 0]
    case FromRegister(reg) => [0x90 + reg]
    case VfpX(first, count) => [0xb3, 16 * first + (count - 1)]
    case VfpXRun(count) => [0xb8 + (count - 1)]
    case VfpHigh(first, count) => [0xc8, 16 * first + (count - 1)]
    case VfpLow(first, count) => [0xc9, 16 * first + (count - 1)]
    case VfpRun(count) => [0xd0 + (count - 1)]
    case WmmxRun(count) => [0xc0 + (count - 1)]
    case Wmmx(first, count) => [0xc6, 16 * first + (count - 1)]
    case WmmxControl(regs) =>
      MaskBytes(regs, 0);
      [0xc7, MaskOf(regs, 0, 4)]
    case End => [0xb0]
  }

  /** A pop of exactly these registers, the lowest first. */
  ghost predicate PopsExactly(op: Op, regs: set<nat>) {
    op.Pop? && Lists(op.regs, regs)
  }

  /** The registers r4 up to count registers on, and r14 with `link`. */
  function RunOf(count: nat, link: bool): (regs: set<nat>)
    ensures forall r :: r in regs <==> 4 <= r < 4 + count || (link && r == 14)
  {
    if count > 0 then RunOf(count - 1, link) + {3 + count} else if link then {14} else {}
  }

  /** What it stands for. Registers of eight bytes move the stack pointer by eight, and the FSTMX format by four more. */
  ghost predicate StandsFor(i: Form, op: Op) {
    match i
    case Up(n) => op == Adjust(4 * (n + 1))
    case Down(n) => op == Adjust(0 - 4 * (n + 1))
    case UpFar(n) => op == Adjust(0x204 + 4 * n)
    case PopHigh(regs) => PopsExactly(op, regs)
    case PopLow(regs) => PopsExactly(op, regs)
    case PopRun(count, link) => PopsExactly(op, RunOf(count, link))
    case FromRegister(reg) => op == SetVsp(reg)
    case VfpX(_, count) => op == Adjust(8 * count + 4)
    case VfpXRun(count) => op == Adjust(8 * count + 4)
    case VfpHigh(_, count) => op == Adjust(8 * count)
    case VfpLow(_, count) => op == Adjust(8 * count)
    case VfpRun(count) => op == Adjust(8 * count)
    case WmmxRun(count) => op == Adjust(8 * count)
    case Wmmx(_, count) => op == Adjust(8 * count)
    case WmmxControl(regs) => op == Adjust(4 * |regs|)
    case End => op == Stop(Finish)
  }

  lemma {:induction false} MaskRegsOf(regs: set<nat>, base: nat, bits: nat)
    requires forall r :: r in regs ==> r < base + bits
    ensures forall r: nat :: r in MaskRegs(MaskOf(regs, base, bits), base, bits) <==> r in regs && r >= base
    decreases bits
  {
    if bits > 0 {
      MaskRegsOf(regs, base + 1, bits - 1);
      var rest := MaskOf(regs, base + 1, bits - 1);
      assert MaskOf(regs, base, bits) / 2 == rest;
      forall r: nat
        ensures r in MaskRegs(MaskOf(regs, base, bits), base, bits) <==> r in regs && r >= base
      {
        assert r in MaskRegs(MaskOf(regs, base, bits), base, bits) <==> (base in regs && r == base) || r in MaskRegs(rest, base + 1, bits - 1);
      }
    }
  }

  lemma {:induction false} MaskIsNotZero(regs: set<nat>, base: nat, bits: nat, r: nat)
    requires r in regs && base <= r < base + bits
    ensures MaskOf(regs, base, bits) > 0
    decreases bits
  {
    if r > base {
      MaskIsNotZero(regs, base + 1, bits - 1, r);
    }
  }

  lemma {:induction false} BitsAreMembers(regs: set<nat>, base: nat, bits: nat)
    requires forall r :: r in regs ==> base <= r < base + bits
    ensures CountBits(MaskOf(regs, base, bits), bits) == |regs|
    decreases bits
  {
    if bits > 0 {
      var rest := regs - {base};
      assert base in regs ==> |rest| == |regs| - 1;
      assert base !in regs ==> rest == regs;
      BitsAreMembers(rest, base + 1, bits - 1);
      MaskWithout(regs, base, base + 1, bits - 1);
      assert MaskOf(regs, base, bits) / 2 == MaskOf(rest, base + 1, bits - 1);
    } else {
      assert forall r :: r !in regs;
      assert regs == {};
    }
  }

  lemma {:induction false} MaskWithout(regs: set<nat>, r: nat, base: nat, bits: nat)
    requires r < base
    ensures MaskOf(regs - {r}, base, bits) == MaskOf(regs, base, bits)
    decreases bits
  {
    if bits > 0 {
      MaskWithout(regs, r, base + 1, bits - 1);
    }
  }

  function CountBits(mask: nat, bits: nat): nat
    decreases bits
  {
    if bits == 0 then 0 else mask % 2 + CountBits(mask / 2, bits - 1)
  }

  lemma FourBits(mask: nat)
    requires mask < 16
    ensures CountBits(mask, 4) == BitsOf4(mask)
  {
    assert CountBits(mask / 8, 1) == mask / 8 % 2;
    assert mask / 4 / 2 == mask / 8 && CountBits(mask / 4, 2) == mask / 4 % 2 + CountBits(mask / 8, 1);
    assert mask / 2 / 2 == mask / 4 && CountBits(mask / 2, 3) == mask / 2 % 2 + CountBits(mask / 4, 2);
  }

  // Parsing what is written.

  lemma TwoFirst(a: Byte, b: Byte, rest: seq<Byte>)
    ensures var data := [a, b] + rest; |data| >= 2 && data[0] == a && data[1] == b
  {
  }

  lemma PopHighParsed(wild: Wild, regs: set<nat>, rest: seq<Byte>)
    requires Among(regs, 4, 16)
    ensures var p := Parse(wild, Written(PopHigh(regs)) + rest); PopsExactly(p.0, regs) && p.1 == 2
  {
    hide Uleb32, MaskRegs, MaskOf, BitSet;
    var mask := MaskOf(regs, 4, 12);
    MaskBytes(regs, 4);
    var r :| r in regs;
    MaskIsNotZero(regs, 4, 12, r);
    MaskRegsOf(regs, 4, 12);
    MaskRegsAre(mask, 4, 12);
    TwoFirst(0x80 + mask / 256, mask % 256, rest);
  }

  lemma PopLowParsed(wild: Wild, regs: set<nat>, rest: seq<Byte>)
    requires Among(regs, 0, 4)
    ensures var p := Parse(wild, Written(PopLow(regs)) + rest); PopsExactly(p.0, regs) && p.1 == 2
  {
    hide Uleb32, MaskRegs, MaskOf, BitSet;
    var mask := MaskOf(regs, 0, 4);
    MaskBytes(regs, 0);
    var r :| r in regs;
    MaskIsNotZero(regs, 0, 4, r);
    MaskRegsOf(regs, 0, 4);
    MaskRegsAre(mask, 0, 4);
    TwoFirst(0xb1, mask, rest);
  }

  lemma ControlParsed(wild: Wild, regs: set<nat>, rest: seq<Byte>)
    requires Among(regs, 0, 4)
    ensures Parse(wild, Written(WmmxControl(regs)) + rest) == (Adjust(4 * |regs|), 2)
  {
    hide Parse, MaskOf, CountBits;
    var mask := MaskOf(regs, 0, 4);
    MaskBytes(regs, 0);
    var r :| r in regs;
    MaskIsNotZero(regs, 0, 4, r);
    BitsAreMembers(regs, 0, 4);
    FourBits(mask);
    ControlOp(wild, mask, rest);
  }

  lemma ControlOp(wild: Wild, mask: nat, rest: seq<Byte>)
    requires 0 < mask < 16
    ensures Parse(wild, [0xc7, mask] + rest) == (Adjust(4 * BitsOf4(mask)), 2)
  {
    hide Uleb32, MaskRegs;
    TwoFirst(0xc7, mask, rest);
  }

  lemma RunRegs(count: nat, link: bool, r: nat)
    requires 0 < count <= 8
    ensures r in Ascending(4, count) + (if link then [14] else []) <==> r in RunOf(count, link)
  {
    if 4 <= r < 4 + count {
      assert Ascending(4, count)[r - 4] == r;
    }
  }

  lemma PopRunOp(wild: Wild, count: nat, link: bool, rest: seq<Byte>)
    requires 0 < count <= 8
    ensures Parse(wild, Written(PopRun(count, link)) + rest) == (Pop(Ascending(4, count) + if link then [14] else []), 1)
  {
    hide Uleb32, MaskRegs, Ascending;
    var b: nat := (Written(PopRun(count, link)) + rest)[0];
    assert b % 8 == count - 1 && (b % 16 >= 8 <==> link);
  }

  lemma PopRunParsed(wild: Wild, count: nat, link: bool, rest: seq<Byte>)
    requires 0 < count <= 8
    ensures var p := Parse(wild, Written(PopRun(count, link)) + rest); PopsExactly(p.0, RunOf(count, link)) && p.1 == 1
  {
    hide Parse, Written, RunOf;
    PopRunOp(wild, count, link, rest);
    forall r: nat
      ensures r in Ascending(4, count) + (if link then [14] else []) <==> r in RunOf(count, link)
    {
      RunRegs(count, link, r);
    }
  }

  lemma ShortParsed(wild: Wild, i: Form, rest: seq<Byte>)
    requires Writable(i) && (i.Up? || i.Down? || i.FromRegister? || i.End?)
    ensures var p := Parse(wild, Written(i) + rest); StandsFor(i, p.0) && p.1 == 1
  {
    hide Uleb32, MaskRegs, MaskOf, EncodeUleb;
    assert (Written(i) + rest)[0] == Written(i)[0];
  }

  lemma RunParsed(wild: Wild, i: Form, rest: seq<Byte>)
    requires Writable(i) && (i.VfpXRun? || i.VfpRun? || i.WmmxRun?)
    ensures var p := Parse(wild, Written(i) + rest); StandsFor(i, p.0) && p.1 == 1
  {
    hide Uleb32, MaskRegs, MaskOf, EncodeUleb;
    var b: nat := (Written(i) + rest)[0];
    assert b == Written(i)[0] && b % 8 == i.count - 1;
  }

  lemma LongParsed(wild: Wild, i: Form, rest: seq<Byte>)
    requires Writable(i) && (i.VfpX? || i.VfpHigh? || i.VfpLow? || i.Wmmx?)
    ensures var p := Parse(wild, Written(i) + rest); StandsFor(i, p.0) && p.1 == 2
  {
    hide Uleb32, MaskRegs, BitsOf4;
    TwoFirst(Written(i)[0], Written(i)[1], rest);
    assert Written(i) == [Written(i)[0], Written(i)[1]];
    var c: nat := 16 * i.first + (i.count - 1);
    assert c % 16 == i.count - 1;
  }

  /** Every instruction that can be written is parsed as what it stands for, and nothing after it is touched. */
  lemma WrittenIsParsed(wild: Wild, i: Form, rest: seq<Byte>)
    requires Writable(i)
    ensures var p := Parse(wild, Written(i) + rest); StandsFor(i, p.0) && p.1 == |Written(i)|
  {
    hide Parse, EncodeUleb, MaskOf;
    match i
    case UpFar(n) => LargeAdjust(wild, n, rest);
    case PopHigh(regs) => PopHighParsed(wild, regs, rest);
    case PopLow(regs) => PopLowParsed(wild, regs, rest);
    case WmmxControl(regs) => ControlParsed(wild, regs, rest);
    case PopRun(count, link) => PopRunParsed(wild, count, link, rest);
    case VfpX(_, _) => LongParsed(wild, i, rest);
    case VfpHigh(_, _) => LongParsed(wild, i, rest);
    case VfpLow(_, _) => LongParsed(wild, i, rest);
    case Wmmx(_, _) => LongParsed(wild, i, rest);
    case VfpXRun(_) => RunParsed(wild, i, rest);
    case VfpRun(_) => RunParsed(wild, i, rest);
    case WmmxRun(_) => RunParsed(wild, i, rest);
    case _ => ShortParsed(wild, i, rest);
  }

  // What is refused.

  /** The status with which the bytes are refused, if they are; a number of several bytes is left to itself. */
  function RefusalOf(data: seq<Byte>): Option<Status> {
    if data == [] then Some(Truncated)
    else
      var b := data[0];
      if b == 0x9d || b == 0x9f then Some(Reserved)
      else if 0xb4 <= b < 0xb8 || 0xca <= b < 0xd0 || b >= 0xd8 then Some(Spare)
      else if 0x80 <= b < 0x90 || b == 0xb1 || b == 0xb3 || 0xc6 <= b < 0xca then
        if |data| == 1 then Some(Truncated)
        else if b == 0x80 && data[1] == 0 then Some(NoUnwind)
        else if (b == 0xb1 || b == 0xc7) && (data[1] == 0 || data[1] >= 16) then Some(Spare)
        else None
      else None
  }

  /** The bytes begin with an instruction that can be written. */
  ghost predicate BeginsWritten(data: seq<Byte>) {
    exists i :: Writable(i) && Written(i) <= data
  }

  /** The registers of a mask. */
  function RegsOf(mask: nat, base: nat, bits: nat): (regs: set<nat>)
    ensures forall r :: r in regs ==> base <= r < base + bits
    decreases bits
  {
    if bits == 0 then {} else (if mask % 2 == 1 then {base} else {}) + RegsOf(mask / 2, base + 1, bits - 1)
  }

  lemma {:induction false} MaskOfRegs(mask: nat, base: nat, bits: nat)
    requires mask < Pow2(bits)
    ensures MaskOf(RegsOf(mask, base, bits), base, bits) == mask
    ensures mask > 0 ==> RegsOf(mask, base, bits) != {}
    decreases bits
  {
    if bits > 0 {
      MaskOfRegs(mask / 2, base + 1, bits - 1);
      var rest := RegsOf(mask / 2, base + 1, bits - 1);
      assert RegsOf(mask, base, bits) - {base} == rest;
      MaskWithout(RegsOf(mask, base, bits), base, base + 1, bits - 1);
    }
  }

  lemma HighMaskOf(high: nat, low: nat) returns (regs: set<nat>)
    requires 0x80 <= high < 0x90 && low < 256 && !(high == 0x80 && low == 0)
    ensures Among(regs, 4, 16) && Written(PopHigh(regs)) == [high, low]
  {
    hide RegsOf, MaskOf, Written;
    HighAndLow(high, low);
    var mask: nat := high % 16 * 256 + low;
    regs := RegsOf(mask, 4, 12);
    HighRegs(mask);
    PopHighBytes(regs, mask, high, low);
  }

  lemma HighRegs(mask: nat)
    requires 0 < mask < 4096
    ensures Among(RegsOf(mask, 4, 12), 4, 16) && MaskOf(RegsOf(mask, 4, 12), 4, 12) == mask
  {
    hide RegsOf, MaskOf;
    MaskFits(mask, 12);
    MaskOfRegs(mask, 4, 12);
  }

  lemma PopHighBytes(regs: set<nat>, mask: nat, high: nat, low: nat)
    requires Among(regs, 4, 16) && MaskOf(regs, 4, 12) == mask && high < 256 && low < 256
    requires 0x80 + mask / 256 == high && mask % 256 == low
    ensures Written(PopHigh(regs)) == [high, low]
  {
    hide MaskOf;
  }

  lemma HighMaskWritten(data: seq<Byte>)
    requires |data| > 1 && RefusalOf(data).None? && 0x80 <= data[0] < 0x90
    ensures BeginsWritten(data)
  {
    hide Written;
    var regs := HighMaskOf(data[0], data[1]);
    assert Writable(PopHigh(regs)) && Written(PopHigh(regs)) == data[..2];
  }

  lemma HighAndLow(high: nat, low: nat)
    requires 0x80 <= high < 0x90 && low < 256
    ensures var mask := high % 16 * 256 + low; mask < 4096 && 0x80 + mask / 256 == high && mask % 256 == low
    ensures high % 16 * 256 + low == 0 <==> high == 0x80 && low == 0
  {
  }

  lemma LowMaskWritten(data: seq<Byte>)
    requires |data| > 1 && RefusalOf(data).None? && (data[0] == 0xb1 || data[0] == 0xc7)
    ensures BeginsWritten(data)
  {
    var mask: nat := data[1];
    MaskFits(mask, 4);
    MaskOfRegs(mask, 0, 4);
    var regs := RegsOf(mask, 0, 4);
    hide RegsOf, MaskOf;
    var i := if data[0] == 0xb1 then PopLow(regs) else WmmxControl(regs);
    assert Writable(i) && Written(i) == data[..2];
  }

  lemma MaskFits(mask: nat, bits: nat)
    requires if bits == 12 then mask < 4096 else bits == 4 && mask < 16
    ensures mask < Pow2(bits)
  {
    assert Pow2(4) == 16;
    Pow2Adds(4, 8);
    assert Pow2(8) == 256;
  }

  lemma RangeWritten(data: seq<Byte>)
    requires |data| > 1 && (data[0] == 0xb3 || data[0] == 0xc6 || data[0] == 0xc8 || data[0] == 0xc9)
    ensures BeginsWritten(data)
  {
    var first: nat, count: nat := data[1] / 16, data[1] % 16 + 1;
    var i := if data[0] == 0xb3 then VfpX(first, count) else if data[0] == 0xc6 then Wmmx(first, count)
             else if data[0] == 0xc8 then VfpHigh(first, count) else VfpLow(first, count);
    assert Writable(i) && Written(i) == data[..2];
  }

  lemma SingleWritten(data: seq<Byte>)
    requires data != [] && RefusalOf(data).None? && data[0] != 0xb2
    requires !(0x80 <= data[0] < 0x90) && data[0] != 0xb1 && data[0] != 0xb3 && !(0xc6 <= data[0] < 0xca)
    ensures BeginsWritten(data)
  {
    hide MaskOf, EncodeUleb;
    var b: nat := data[0];
    var i :=
      if b < 0x40 then Up(b) else if b < 0x80 then Down(b - 0x40) else if b < 0xa0 then FromRegister(b - 0x90)
      else if b < 0xb0 then PopRun((b - 0xa0) % 8 + 1, b >= 0xa8) else if b == 0xb0 then End
      else if b < 0xc0 then VfpXRun(b - 0xb8 + 1) else if b < 0xd0 then WmmxRun(b - 0xc0 + 1) else VfpRun(b - 0xd0 + 1);
    assert Writable(i);
    assert Written(i) == data[..1];
  }

  /** There are no others: the bytes are refused with that status, or begin with an instruction that can be written. */
  lemma RefusedOrWritten(wild: Wild, data: seq<Byte>)
    requires data == [] || data[0] != 0xb2
    ensures match RefusalOf(data)
            case Some(status) => Parse(wild, data).0 == Stop(status)
            case None => BeginsWritten(data)
  {
    hide BeginsWritten, Uleb32, MaskRegs;
    if RefusalOf(data).None? {
      var b := data[0];
      if 0x80 <= b < 0x90 {
        HighMaskWritten(data);
      } else if b == 0xb1 || b == 0xc7 {
        LowMaskWritten(data);
      } else if b == 0xb3 || b == 0xc6 || b == 0xc8 || b == 0xc9 {
        RangeWritten(data);
      } else {
        SingleWritten(data);
      }
    }
  }

  /** A number that does not end is refused. */
  lemma {:induction false} UnendedNumber(wild: Wild, data: seq<Byte>, result: nat, shift: nat)
    requires forall i :: 0 <= i < |data| ==> data[i] >= 128
    ensures Uleb32(wild, data, result, shift) == None
    decreases |data|
  {
    if data != [] {
      UnendedNumber(wild, data[1..], WithGroup(wild, result, data[0], shift), shift + 7);
    }
  }

  lemma UnendedIsRefused(wild: Wild, data: seq<Byte>)
    requires data != [] && data[0] == 0xb2 && forall i :: 0 < i < |data| ==> data[i] >= 128
    ensures Parse(wild, data) == (Stop(Truncated), |data|)
  {
    UnendedNumber(wild, data[1..], 0, 0);
    hide Uleb32;
  }

  // What a pop does.

  /** How many of the registers are below this one. */
  ghost function Rank(regs: set<nat>, r: nat): nat {
    |Below(regs, r)|
  }

  function Below(regs: set<nat>, r: nat): set<nat> {
    set x | x in regs && x < r
  }

  /** Where the word of a register stands: the lowest register first. */
  ghost function SlotOf(st: State, regs: set<nat>, r: nat): nat {
    (st.cfa + 4 * Rank(regs, r)) % W32
  }

  ghost predicate Lists(list: seq<nat>, regs: set<nat>) {
    (forall j, k :: 0 <= j < k < |list| ==> list[j] < list[k]) && (forall r: nat :: r in list <==> r in regs)
  }

  lemma {:induction false} SizeIs(list: seq<nat>, regs: set<nat>)
    requires Lists(list, regs)
    ensures |list| == |regs|
    decreases |list|
  {
    if list == [] {
      assert forall r :: r !in regs;
      assert regs == {};
    } else {
      var last := |list| - 1;
      assert list == list[..last] + [list[last]];
      assert Lists(list[..last], regs - {list[last]});
      SizeIs(list[..last], regs - {list[last]});
    }
  }

  /** In a list of exactly these registers, each stands at its rank. */
  lemma RankIs(list: seq<nat>, regs: set<nat>, i: nat)
    requires Lists(list, regs) && i < |list|
    ensures Rank(regs, list[i]) == i
  {
    var below := Below(regs, list[i]);
    forall r: nat
      ensures r in list[..i] <==> r in below
    {
      if r in below {
        var k :| 0 <= k < |list| && list[k] == r;
        assert k < i;
      }
    }
    SizeIs(list[..i], below);
  }

  /** All the words of a pop can be read. */
  ghost predicate SlotsMapped(words: Words, st: State, count: nat) {
    forall k :: 0 <= k < count ==> Moved(st.cfa, 4 * k) in words
  }

  /** A pop reads one word after another, up to the first that cannot be read. */
  lemma {:induction false} PopAllReads(words: Words, st: State, list: seq<nat>)
    requires st.Proper() && AllBelow(list, 16)
    ensures PopAll(words, st, list).1 <==> SlotsMapped(words, st, |list|)
    ensures !PopAll(words, st, list).1 ==>
              exists k: nat :: k < |list| && SlotsMapped(words, st, k) && Moved(st.cfa, 4 * k) !in words
                && PopAll(words, st, list).0.cfa == Moved(st.cfa, 4 * k)
    decreases |list|
  {
    hide Moved;
    MovedTwice(st.cfa, 0, 0);
    assert Moved(st.cfa, 4 * 0) == st.cfa;
    if list != [] && st.cfa in words {
      var next := st.(regs := st.regs[list[0] := words[st.cfa] % W32], cfa := Moved(st.cfa, 4));
      PopAllReads(words, next, list[1..]);
      forall k: nat
        ensures Moved(next.cfa, 4 * k) == Moved(st.cfa, 4 * (k + 1))
      {
        MovedTwice(st.cfa, 4, 4 * k);
      }
      SlotsShift(words, st, next, |list| - 1);
      if !PopAll(words, next, list[1..]).1 {
        var k: nat :| k < |list| - 1 && SlotsMapped(words, next, k) && Moved(next.cfa, 4 * k) !in words
          && PopAll(words, next, list[1..]).0.cfa == Moved(next.cfa, 4 * k);
        SlotsShift(words, st, next, k);
        assert SlotsMapped(words, st, k + 1);
      }
    } else if list != [] {
      assert SlotsMapped(words, st, 0) && 0 < |list|;
      assert Moved(st.cfa, 4 * 0) !in words;
    }
  }

  lemma SlotsShift(words: Words, st: State, next: State, count: nat)
    requires Moved(st.cfa, 0) in words && forall k: nat :: Moved(next.cfa, 4 * k) == Moved(st.cfa, 4 * (k + 1))
    ensures SlotsMapped(words, next, count) <==> SlotsMapped(words, st, count + 1)
  {
    hide Moved;
    if SlotsMapped(words, next, count) {
      forall k | 0 <= k < count + 1
        ensures Moved(st.cfa, 4 * k) in words
      {
        if k > 0 {
          assert Moved(next.cfa, 4 * (k - 1)) in words;
        }
      }
    }
    if SlotsMapped(words, st, count + 1) {
      forall k | 0 <= k < count
        ensures Moved(next.cfa, 4 * k) in words
      {
        assert Moved(st.cfa, 4 * (k + 1)) in words;
      }
    }
  }

  /** What a pop leaves: in each register the word of its slot; in the stack pointer what r13 was popped, or the place after
      the last slot; and whether r15 was among them. */
  ghost predicate Popped(words: Words, st: State, regs: set<nat>, end: State) {
    && |st.regs| == |end.regs| == 16
    && (forall r :: 0 <= r < 16 ==>
          if r in regs then SlotOf(st, regs, r) in words && end.regs[r] == words[SlotOf(st, regs, r)] % W32 else end.regs[r] == st.regs[r])
    && end.cfa == (if 13 in regs then end.regs[13] else (st.cfa + 4 * |regs|) % W32)
    && (end.pcSet <==> st.pcSet || 15 in regs)
  }

  lemma PoppedReg(words: Words, st: State, list: seq<nat>, regs: set<nat>, popped: State, r: nat)
    requires Lists(list, regs) && |st.regs| == 16 && |popped.regs| == 16 && r < 16
    requires forall r :: 0 <= r < 16 && r !in list ==> popped.regs[r] == st.regs[r]
    requires forall i :: 0 <= i < |list| ==> HoldsWord(words, popped, list[i], Moved(st.cfa, 4 * i))
    ensures if r in regs then SlotOf(st, regs, r) in words && popped.regs[r] == words[SlotOf(st, regs, r)] % W32
            else popped.regs[r] == st.regs[r]
  {
    hide Rank;
    if r in regs {
      var i :| 0 <= i < |list| && list[i] == r;
      RankIs(list, regs, i);
      assert HoldsWord(words, popped, list[i], Moved(st.cfa, 4 * i));
    }
  }

  lemma PopAllLeaves(words: Words, st: State, list: seq<nat>, regs: set<nat>)
    requires st.Proper() && AllBelow(list, 16) && Lists(list, regs) && SlotsMapped(words, st, |regs|)
    ensures PopAll(words, st, list).1
    ensures var popped := PopAll(words, st, list).0;
            && popped.cfa == (st.cfa + 4 * |regs|) % W32
            && forall r :: 0 <= r < 16 ==>
                 if r in regs then SlotOf(st, regs, r) in words && popped.regs[r] == words[SlotOf(st, regs, r)] % W32
                 else popped.regs[r] == st.regs[r]
  {
    hide PopAll, SlotsMapped, SlotOf;
    SizeIs(list, regs);
    PopAllReads(words, st, list);
    PopAllGives(words, st, list);
    forall r | 0 <= r < 16
      ensures if r in regs then SlotOf(st, regs, r) in words && PopAll(words, st, list).0.regs[r] == words[SlotOf(st, regs, r)] % W32
              else PopAll(words, st, list).0.regs[r] == st.regs[r]
    {
      PoppedReg(words, st, list, regs, PopAll(words, st, list).0, r);
    }
  }

  lemma PopGives(words: Words, st: State, op: Op, regs: set<nat>)
    requires st.Proper() && PopsExactly(op, regs) && Encodable(op) && SlotsMapped(words, st, |regs|)
    ensures Exec(words, op, st).1 == None && Popped(words, st, regs, Exec(words, op, st).0)
  {
    hide PopAll, SlotsMapped, SlotOf;
    PopAllLeaves(words, st, op.regs, regs);
    assert SP in op.regs <==> 13 in regs;
    assert PC in op.regs <==> 15 in regs;
    assert 13 in regs ==> PopAll(words, st, op.regs).0.regs[13] < W32;
  }

  /** A pop that comes to a word that cannot be read stops with the address of that word. */
  lemma PopStops(words: Words, st: State, op: Op, regs: set<nat>)
    requires st.Proper() && PopsExactly(op, regs) && Encodable(op) && !SlotsMapped(words, st, |regs|)
    ensures StopsReading(words, st, |regs|, Exec(words, op, st).1)
  {
    hide PopAll, SlotsMapped;
    SizeIs(op.regs, regs);
    PopAllReads(words, st, op.regs);
  }

  /** How far an instruction moves the stack pointer. */
  ghost function Distance(i: Form): int {
    match i
    case Up(n) => 4 * (n + 1)
    case Down(n) => 0 - 4 * (n + 1)
    case UpFar(n) => 0x204 + 4 * n
    case VfpX(_, count) => 8 * count + 4
    case VfpXRun(count) => 8 * count + 4
    case VfpHigh(_, count) => 8 * count
    case VfpLow(_, count) => 8 * count
    case VfpRun(count) => 8 * count
    case WmmxRun(count) => 8 * count
    case Wmmx(_, count) => 8 * count
    case WmmxControl(regs) => 4 * |regs|
    case _ => 0
  }

  /** The general registers that an instruction pops. */
  ghost function PoppedRegs(i: Form): set<nat> {
    match i
    case PopHigh(regs) => regs
    case PopLow(regs) => regs
    case PopRun(count, link) => RunOf(count, link)
    case _ => {}
  }

  /** Decoding an instruction where it is written does what it stands for, and goes on behind it. */
  lemma WrittenIsDecoded(words: Words, wild: Wild, i: Form, rest: seq<Byte>, st: State)
    requires st.Proper() && Writable(i)
    ensures var (end, left, status) := Decoded(words, wild, Written(i) + rest, st);
            var regs := PoppedRegs(i);
            && left == rest
            && (i.End? ==> end == st && status == Some(Finish))
            && (i.FromRegister? ==> end == st.(cfa := st.regs[i.reg] % W32) && status == None)
            && (!i.End? && !i.FromRegister? && regs == {} ==> end == st.(cfa := (st.cfa + Distance(i)) % W32) && status == None)
            && (regs != {} && SlotsMapped(words, st, |regs|) ==> Popped(words, st, regs, end) && status == None)
            && (regs != {} && !SlotsMapped(words, st, |regs|) ==> StopsReading(words, st, |regs|, status))
  {
    hide Parse, Written, MaskOf, PopAll, SlotsMapped, Popped, RunOf, StopsReading;
    WrittenIsParsed(wild, i, rest);
    ParseEncodable(wild, Written(i) + rest);
    var op := Parse(wild, Written(i) + rest).0;
    assert (Written(i) + rest)[|Written(i)|..] == rest;
    var regs := PoppedRegs(i);
    if i.PopRun? {
      RunIsNotEmpty(i.count, i.link);
    }
    if regs != {} {
      if SlotsMapped(words, st, |regs|) {
        PopGives(words, st, op, regs);
      } else {
        PopStops(words, st, op, regs);
      }
    }
  }

  lemma RunIsNotEmpty(count: nat, link: bool)
    requires count > 0
    ensures RunOf(count, link) != {}
  {
    assert 4 in RunOf(count, link);
  }

  /** The status has the address of the first word that cannot be read. */
  ghost predicate StopsReading(words: Words, st: State, count: nat, status: Option<Status>) {
    exists k: nat :: k < count && SlotsMapped(words, st, k) && (st.cfa + 4 * k) % W32 !in words
                     && status == Some(ReadFailed((st.cfa + 4 * k) % W32))
  }

  // Whole programs.

  ghost predicate AllWritable(forms: seq<Form>) {
    forall i :: 0 <= i < |forms| ==> Writable(forms[i])
  }

  ghost function WrittenAll(forms: seq<Form>): seq<Byte>
    requires AllWritable(forms)
  {
    if forms == [] then [] else Written(forms[0]) + WrittenAll(forms[1..])
  }

  /** Any list of instructions, written out with the finish code behind it, is the program of what they stand for. */
  lemma {:induction false} ProgramOfWritten(wild: Wild, forms: seq<Form>, rest: seq<Byte>)
    requires AllWritable(forms) && forall i :: 0 <= i < |forms| ==> !forms[i].End?
    ensures var ops := Program(wild, WrittenAll(forms) + [0xb0] + rest);
            && |ops| == |forms| + 1 && ops[|forms|] == Stop(Finish)
            && forall i :: 0 <= i < |forms| ==> StandsFor(forms[i], ops[i])
    decreases |forms|
  {
    hide Parse, Written, Writable, StandsFor;
    var data := WrittenAll(forms) + [0xb0] + rest;
    if forms == [] {
      assert data == Written(End) + rest by {
        EndIsWritten();
      }
      EndIsWritten();
      WrittenIsParsed(wild, End, rest);
    } else {
      var tail := WrittenAll(forms[1..]) + [0xb0] + rest;
      assert data == Written(forms[0]) + tail;
      WrittenIsParsed(wild, forms[0], tail);
      NeverStops(forms[0], Parse(wild, data).0);
      assert data[|Written(forms[0])|..] == tail;
      ProgramOfWritten(wild, forms[1..], rest);
    }
  }

  lemma EndIsWritten()
    ensures Writable(End) && Written(End) == [0xb0] && forall op :: StandsFor(End, op) ==> op == Stop(Finish)
  {
  }

  lemma NeverStops(i: Form, op: Op)
    requires StandsFor(i, op) && !i.End?
    ensures !op.Stop?
  {
  }
}
