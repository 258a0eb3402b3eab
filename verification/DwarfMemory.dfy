/** Reading numbers at a cursor: fixed widths, and the variable-length encodings of section 7.6 of DWARF 4. */
module DwarfMemory {
  import opened OrderedMap

  type Byte = b: int | 0 <= b < 256

  const W64 := 0x1_0000_0000_0000_0000

  function Pow2(n: nat): (r: nat)
    ensures r > 0
  {
    if n == 0 then 1 else 2 * Pow2(n - 1)
  }

  lemma {:induction false} Pow2Adds(a: nat, b: nat)
    ensures Pow2(a + b) == Pow2(a) * Pow2(b)
  {
    if a > 0 {
      Pow2Adds(a - 1, b);
    }
  }

  lemma Pow2Values()
    ensures Pow2(0) == 1
    ensures Pow2(6) == 64 && Pow2(7) == 128 && Pow2(32) == 0x1_0000_0000
    ensures Pow2(62) == 0x4000_0000_0000_0000 && Pow2(63) == 0x8000_0000_0000_0000 && Pow2(64) == W64
  {
    assert Pow2(8) == 256;
    hide Pow2;
    Pow2Sum(8, 8, 256, 256);
    Pow2Sum(8, 6, 256, 64);
    Pow2Sum(16, 14, 0x1_0000, 0x4000);
    Pow2Sum(16, 16, 0x1_0000, 0x1_0000);
    Pow2Sum(32, 30, 0x1_0000_0000, 0x4000_0000);
    Pow2Sum(1, 62, 2, 0x4000_0000_0000_0000);
    Pow2Sum(32, 32, 0x1_0000_0000, 0x1_0000_0000);
  }

  lemma Pow2Sum(a: nat, b: nat, x: nat, y: nat)
    requires Pow2(a) == x && Pow2(b) == y
    ensures Pow2(a + b) == x * y
  {
    Pow2Adds(a, b);
  }

  lemma {:induction false} Pow2Grows(a: nat, b: nat)
    requires a <= b
    ensures Pow2(a) <= Pow2(b)
  {
    if a < b {
      Pow2Grows(a, b - 1);
    }
  }

  /** The 64-bit word with all its bits from `shift` on set. */
  function Ones(shift: nat): (r: nat)
    requires shift < 64
    ensures r + Pow2(shift) == W64
  {
    Pow2Values();
    Pow2Grows(shift, 63);
    W64 - Pow2(shift)
  }

  /** What C++ leaves undefined: a byte shifted by 64 or more, and a value or-ed with ones shifted by 64 or more. */
  datatype Undefined = Undefined(shifted: (nat, nat) -> nat, extended: (nat, nat) -> nat)

  function ShiftLeft(u: Undefined, x: nat, shift: nat): nat {
    if shift < 64 then x * Pow2(shift) % W64 else u.shifted(x, shift) % W64
  }

  /** The value with all its bits from `shift` on set. */
  function SetFrom(u: Undefined, value: nat, shift: nat): nat {
    if shift < 64 then value % Pow2(shift) + Ones(shift) else u.extended(value, shift) % W64
  }

  /** The sum of the groups of seven bits, how many bits they were, the last byte, and the place after it. */
  datatype Groups = Groups(value: nat, shift: nat, last: Byte, next: nat)

  function ReadGroups(u: Undefined, mem: seq<Byte>, off: nat, shift: nat, value: nat): Option<Groups>
    decreases |mem| - off
  {
    if off >= |mem| then None
    else
      var value' := (value + ShiftLeft(u, mem[off] % 128, shift)) % W64;
      if mem[off] >= 128 then ReadGroups(u, mem, off + 1, shift + 7, value')
      else Some(Groups(value', shift + 7, mem[off], off + 1))
  }

  function Uleb(u: Undefined, mem: seq<Byte>, off: nat): Option<(nat, nat)> {
    var g := ReadGroups(u, mem, off, 0, 0);
    if g.None? then None else Some((g.value.value, g.value.next))
  }

  /** The signed value as a 64-bit word. */
  function Sleb(u: Undefined, mem: seq<Byte>, off: nat): Option<(nat, nat)> {
    var g := ReadGroups(u, mem, off, 0, 0);
    if g.None? then None
    else Some((if g.value.last % 128 >= 64 then SetFrom(u, g.value.value, g.value.shift) else g.value.value, g.value.next))
  }

  // What the standard calls an encoding.

  predicate IsEncoding(bytes: seq<Byte>) {
    |bytes| > 0 && bytes[|bytes| - 1] < 128 && forall i :: 0 <= i < |bytes| - 1 ==> bytes[i] >= 128
  }

  function LowBits(bytes: seq<Byte>): nat {
    if bytes == [] then 0 else bytes[0] % 128 + 128 * LowBits(bytes[1..])
  }

  predicate IsUleb(bytes: seq<Byte>, v: nat) {
    IsEncoding(bytes) && LowBits(bytes) == v
  }

  predicate IsSleb(bytes: seq<Byte>, v: int) {
    IsEncoding(bytes) && v == LowBits(bytes) - if bytes[|bytes| - 1] >= 64 then Pow2(7 * |bytes|) else 0
  }

  predicate Holds(mem: seq<Byte>, off: nat, bytes: seq<Byte>) {
    off + |bytes| <= |mem| && mem[off..off + |bytes|] == bytes
  }

  lemma {:induction false} LowBitsBound(bytes: seq<Byte>)
    ensures LowBits(bytes) < Pow2(7 * |bytes|)
  {
    if bytes != [] {
      LowBitsBound(bytes[1..]);
      Pow2Values();
      Pow2Adds(7, 7 * |bytes[1..]|);
    }
  }

  lemma AddShifted(u: Undefined, value: nat, low: nat, rest: nat, shift: nat)
    requires shift < 64
    ensures ((value + ShiftLeft(u, low, shift)) % W64 + rest * Pow2(shift + 7)) % W64 == (value + (low + 128 * rest) * Pow2(shift)) % W64
  {
    Pow2Values();
    Pow2Adds(shift, 7);
    hide Pow2;
    AddScaled(value, low, rest, Pow2(shift));
  }

  lemma AddScaled(value: nat, low: nat, rest: nat, p: nat)
    ensures ((value + low * p % W64) % W64 + rest * (p * 128)) % W64 == (value + (low + 128 * rest) * p) % W64
  {
    assert (low + 128 * rest) * p == low * p + rest * (p * 128);
    ModAdds(value, low * p, rest * (p * 128));
  }

  lemma ModAdds(a: nat, b: nat, c: nat)
    ensures ((a + b % W64) % W64 + c) % W64 == (a + b + c) % W64
  {
  }

  lemma RestEncoded(mem: seq<Byte>, off: nat, bytes: seq<Byte>)
    requires IsEncoding(bytes) && Holds(mem, off, bytes) && |bytes| > 1
    ensures mem[off] == bytes[0] >= 128 && IsEncoding(bytes[1..]) && Holds(mem, off + 1, bytes[1..])
  {
  }

  lemma OneGroup(u: Undefined, value: nat, bytes: seq<Byte>, shift: nat)
    requires bytes != [] && shift < 64
    ensures var value' := (value + ShiftLeft(u, bytes[0] % 128, shift)) % W64;
            && (value' + LowBits(bytes[1..]) * Pow2(shift + 7)) % W64 == (value + LowBits(bytes) * Pow2(shift)) % W64
            && (|bytes| == 1 ==> value' == (value + LowBits(bytes) * Pow2(shift)) % W64)
  {
    hide Pow2, ShiftLeft;
    AddShifted(u, value, bytes[0] % 128, LowBits(bytes[1..]), shift);
  }

  /** The groups of an encoding that needs no undefined shift add up to the number it encodes. */
  lemma {:induction false} GroupsOfEncoding(u: Undefined, mem: seq<Byte>, off: nat, bytes: seq<Byte>, shift: nat, value: nat)
    requires IsEncoding(bytes) && Holds(mem, off, bytes) && shift + 7 * |bytes| <= 70 && value < W64
    ensures ReadGroups(u, mem, off, shift, value)
         == Some(Groups((value + LowBits(bytes) * Pow2(shift)) % W64, shift + 7 * |bytes|, bytes[|bytes| - 1], off + |bytes|))
    decreases |bytes|
  {
    hide Pow2, ShiftLeft, LowBits;
    assert mem[off] == bytes[0];
    OneGroup(u, value, bytes, shift);
    if |bytes| > 1 {
      RestEncoded(mem, off, bytes);
      hide IsEncoding, Holds;
      GroupsOfEncoding(u, mem, off + 1, bytes[1..], shift + 7, (value + ShiftLeft(u, bytes[0] % 128, shift)) % W64);
    }
  }

  /** Reading any encoding of at most ten bytes of a 64-bit number returns that number and the place after it. */
  lemma UlebRoundTrip(u: Undefined, mem: seq<Byte>, off: nat, bytes: seq<Byte>, v: nat)
    requires IsUleb(bytes, v) && Holds(mem, off, bytes) && |bytes| <= 10 && v < W64
    ensures Uleb(u, mem, off) == Some((v, off + |bytes|))
  {
    GroupsOfEncoding(u, mem, off, bytes, 0, 0);
    assert LowBits(bytes) * Pow2(0) == v;
  }

  /** A number as a 64-bit word. */
  function Word64(v: int): nat {
    v % W64
  }

  /** Reading any encoding of at most nine bytes of a signed number returns it, and of ten bytes when its sign bit is clear. */
  lemma SlebRoundTrip(u: Undefined, mem: seq<Byte>, off: nat, bytes: seq<Byte>, v: int)
    requires IsSleb(bytes, v) && Holds(mem, off, bytes)
    requires |bytes| <= 9 || (|bytes| == 10 && bytes[9] < 64)
    ensures Sleb(u, mem, off) == Some((Word64(v), off + |bytes|))
  {
    hide ReadGroups, LowBits, Pow2, Holds;
    GroupsOfEncoding(u, mem, off, bytes, 0, 0);
    LowBitsBound(bytes);
    Pow2Values();
    hide IsEncoding;
    if bytes[|bytes| - 1] >= 64 {
      Pow2Grows(7 * |bytes|, 63);
      SignExtends(LowBits(bytes), Pow2(7 * |bytes|));
    }
  }

  lemma SignExtends(low: nat, p: nat)
    requires low < p <= W64
    ensures (low * 1) % W64 % p + W64 - p == (low - p) % W64
  {
    SmallMod(low, p);
    Wrapped(low - p);
  }

  lemma SmallMod(a: nat, m: nat)
    requires a < m
    ensures a % m == a
  {
  }

  lemma Wrapped(v: int)
    requires 0 - W64 <= v < 0
    ensures v % W64 == v + W64
  {
    assert (v + W64) % W64 == v + W64;
  }

  /** The shortest encodings. */
  function EncodeUleb(v: nat): seq<Byte> {
    if v < 128 then [v] else [v % 128 + 128] + EncodeUleb(v / 128)
  }

  function EncodeSleb(v: int): seq<Byte>
    decreases if v < 0 then -v else v
  {
    if -64 <= v < 64 then [v % 128] else [v % 128 + 128] + EncodeSleb(v / 128)
  }

  lemma {:induction false} EncodeUlebEncodes(v: nat, n: nat)
    requires v < Pow2(7 * n) && n > 0
    ensures IsUleb(EncodeUleb(v), v) && |EncodeUleb(v)| <= n
  {
    if v < 128 {
      assert EncodeUleb(v) == [v] && LowBits([v]) == v;
    } else {
      hide Pow2, IsUleb;
      OneGroupLess(v, n);
      EncodeUlebEncodes(v / 128, n - 1);
      UlebOneMore(v % 128, EncodeUleb(v / 128), v / 128);
    }
  }

  lemma OneGroupLess(v: nat, n: nat)
    requires 128 <= v < Pow2(7 * n) && n > 0
    ensures n > 1 && v / 128 < Pow2(7 * (n - 1))
  {
    Pow2Values();
    hide Pow2;
    assert 7 * 1 == 7 && n > 1;
    Pow2Adds(7, 7 * (n - 1));
  }

  lemma UlebOneMore(low: nat, rest: seq<Byte>, v: nat)
    requires low < 128 && IsUleb(rest, v)
    ensures IsUleb([low + 128] + rest, low + 128 * v)
  {
    assert ([low + 128] + rest)[1..] == rest;
  }

  lemma {:induction false} EncodeSlebEncodes(v: int)
    ensures IsSleb(EncodeSleb(v), v)
    decreases if v < 0 then -v else v
  {
    if -64 <= v < 64 {
      SlebOfOne(v);
    } else {
      hide IsSleb;
      EncodeSlebEncodes(v / 128);
      SlebOneMore(v % 128, EncodeSleb(v / 128), v / 128);
    }
  }

  lemma SlebOfOne(v: int)
    requires -64 <= v < 64
    ensures IsSleb([v % 128], v)
  {
    Pow2Values();
    hide Pow2;
    assert 7 * |[v % 128]| == 7 && LowBits([v % 128]) == v % 128;
  }

  /** Seven more bits put below those of an encoding. */
  lemma SlebOneMore(low: nat, rest: seq<Byte>, v: int)
    requires low < 128 && IsSleb(rest, v)
    ensures IsSleb([low + 128] + rest, low + 128 * v)
  {
    hide Pow2;
    var bytes := [low + 128] + rest;
    assert bytes[1..] == rest;
    Pow2Adds(7, 7 * |rest|);
    Pow2Values();
    assert 7 * |bytes| == 7 + 7 * |rest|;
  }

  /** The shortest encoding of a signed number has at most n bytes exactly when the number fits in 7n bits. */
  lemma {:induction false} EncodeSlebLength(v: int, n: nat)
    requires n > 0
    ensures |EncodeSleb(v)| <= n <==> FitsIn(v, n)
    decreases if v < 0 then -v else v
  {
    Pow2Values();
    if -64 <= v < 64 {
      Pow2Grows(6, 7 * n - 1);
    } else {
      EncodeSlebLength(v / 128, if n == 1 then 1 else n - 1);
      FitsOneMore(v, n);
    }
  }

  lemma FitsOneMore(v: int, n: nat)
    requires n > 0 && !(-64 <= v < 64)
    ensures FitsIn(v, n) <==> n > 1 && FitsIn(v / 128, n - 1)
  {
    Pow2Values();
    if n > 1 {
      Pow2Adds(7, 7 * (n - 1) - 1);
      var p := Pow2(7 * (n - 1) - 1);
      assert Pow2(7 * n - 1) == 128 * p;
    } else {
      assert Pow2(7 * n - 1) == 64;
    }
  }

  /** The number fits in n groups of seven bits, the highest of which is its sign. */
  predicate FitsIn(v: int, n: nat)
    requires n > 0
  {
    0 - Pow2(7 * n - 1) <= v < Pow2(7 * n - 1)
  }

  /** Shifting as the processors that mask the count do it: ones shifted by 70 are ones shifted by 6. */
  function Masking(): Undefined {
    Undefined((x, shift) => x * Pow2(shift % 64) % W64, (value, shift) => value % Pow2(shift % 64) + Ones(shift % 64))
  }

  /** Whether the shortest encoding of a 64-bit signed number is read back without relying on undefined shifts: exactly
      when it is not below -2^62. */
  lemma ShortestSlebRoundTrip(mem: seq<Byte>, off: nat, v: int)
    requires -0x8000_0000_0000_0000 <= v < 0x8000_0000_0000_0000 && Holds(mem, off, EncodeSleb(v))
    ensures Sleb(Masking(), mem, off) == Some((Word64(v), off + |EncodeSleb(v)|)) <==> -0x4000_0000_0000_0000 <= v
  {
    var bytes := EncodeSleb(v);
    Pow2Values();
    Pow2Grows(63, 69);
    assert FitsIn(v, 10);
    TenBytes(v, bytes);
    EncodeSlebEncodes(v);
    hide EncodeSleb, ReadGroups, LowBits, Pow2;
    if |bytes| <= 9 || bytes[9] < 64 {
      SlebRoundTrip(Masking(), mem, off, bytes, v);
    } else {
      TenBytesMisread(mem, off, bytes);
    }
  }

  /** With the shift count masked, an encoding of ten bytes whose sign bit is set reads as a number not below -64. */
  lemma TenBytesMisread(mem: seq<Byte>, off: nat, bytes: seq<Byte>)
    requires IsEncoding(bytes) && |bytes| == 10 && bytes[9] >= 64 && Holds(mem, off, bytes)
    ensures Sleb(Masking(), mem, off).Some? && Sleb(Masking(), mem, off).value.0 >= W64 - 64
  {
    GroupsOfEncoding(Masking(), mem, off, bytes, 0, 0);
    hide ReadGroups, LowBits, IsEncoding, Holds, Pow2, SetFrom, Masking;
    var g := ReadGroups(Masking(), mem, off, 0, 0).value;
    MaskedOnes(g.value);
  }

  /** Ones shifted by 70 with the shift count masked. */
  lemma MaskedOnes(value: nat)
    ensures W64 - 64 <= SetFrom(Masking(), value, 70) < W64
  {
    Pow2Values();
    hide Pow2;
    assert Masking().extended(value, 70) == value % Pow2(6) + Ones(6) == value % 64 + (W64 - 64);
  }

  /** A negative number whose shortest encoding has ten bytes is below -2^62. */
  lemma TenBytes(v: int, bytes: seq<Byte>)
    requires bytes == EncodeSleb(v) && FitsIn(v, 10)
    ensures |bytes| <= 10
    ensures v < -0x4000_0000_0000_0000 <==> |bytes| == 10 && bytes[9] >= 64
  {
    EncodeSlebEncodes(v);
    EncodeSlebLength(v, 9);
    EncodeSlebLength(v, 10);
    Pow2Values();
    LowBitsBound(bytes);
    hide EncodeSleb, LowBits;
  }

  function LittleEndian(bytes: seq<Byte>): nat {
    if bytes == [] then 0 else bytes[0] + 256 * LittleEndian(bytes[1..])
  }

  /** How an operand is encoded: a width in bytes, or a variable length. */
  datatype Encoding = Unsigned(width: nat) | Signed(width: nat) | UlebNumber | SlebNumber

  function SignExtended(v: nat, width: nat): nat
    requires 0 < width <= 8 && v < Pow2(8 * width)
  {
    Pow2Grows(8 * width, 64);
    Pow2Values();
    if v < Pow2(8 * width - 1) then v else v + (W64 - Pow2(8 * width))
  }

  lemma {:induction false} LittleEndianBound(bytes: seq<Byte>)
    ensures LittleEndian(bytes) < Pow2(8 * |bytes|)
  {
    if bytes != [] {
      LittleEndianBound(bytes[1..]);
      Pow2Adds(8, 8 * |bytes[1..]|);
      Pow2Values();
      assert Pow2(8) == 256;
    }
  }

  /** The number at `off` as a 64-bit word, and the place after it. */
  function Number(u: Undefined, mem: seq<Byte>, off: nat, e: Encoding): Option<(nat, nat)>
    requires e.Unsigned? || e.Signed? ==> 0 < e.width <= 8
  {
    match e
    case UlebNumber => Uleb(u, mem, off)
    case SlebNumber => Sleb(u, mem, off)
    case Unsigned(n) => if off + n > |mem| then None else Some((LittleEndian(mem[off..off + n]), off + n))
    case Signed(n) =>
      if off + n > |mem| then None
      else
        LittleEndianBound(mem[off..off + n]);
        Some((SignExtended(LittleEndian(mem[off..off + n]), n), off + n))
  }

  /** A number below 2^(8n) in n bytes, the least significant first. */
  function FixedBytes(v: nat, n: nat): (r: seq<Byte>)
    ensures |r| == n
  {
    if n == 0 then [] else [v % 256] + FixedBytes(v / 256, n - 1)
  }

  lemma Pow2Byte(n: nat)
    requires n > 0
    ensures Pow2(8 * n) == 256 * Pow2(8 * (n - 1))
  {
    Pow2Adds(8, 8 * (n - 1));
    assert Pow2(8) == 256;
  }

  lemma {:induction false} LittleEndianOfFixed(v: nat, n: nat)
    requires v < Pow2(8 * n)
    ensures LittleEndian(FixedBytes(v, n)) == v
  {
    if n > 0 {
      Pow2Byte(n);
      hide Pow2;
      LittleEndianOfFixed(v / 256, n - 1);
      assert FixedBytes(v, n)[1..] == FixedBytes(v / 256, n - 1);
    }
  }

  lemma FixedRead(mem: seq<Byte>, off: nat, v: nat, n: nat)
    requires v < Pow2(8 * n) && Holds(mem, off, FixedBytes(v, n))
    ensures off + n <= |mem| && LittleEndian(mem[off..off + n]) == v
  {
    hide Pow2;
    LittleEndianOfFixed(v, n);
    assert mem[off..off + n] == FixedBytes(v, n);
  }

  /** A number written in a fixed width is read back, with the place after it. */
  lemma FixedRoundTrip(u: Undefined, mem: seq<Byte>, off: nat, v: nat, n: nat)
    requires 0 < n <= 8 && v < Pow2(8 * n) && Holds(mem, off, FixedBytes(v, n))
    ensures Number(u, mem, off, Unsigned(n)) == Some((v, off + n))
  {
    hide Pow2, FixedBytes, Holds;
    FixedRead(mem, off, v, n);
  }

  /** So is a signed one, as a 64-bit word. */
  lemma SignedRoundTrip(u: Undefined, mem: seq<Byte>, off: nat, v: int, n: nat)
    requires 0 < n <= 8 && 0 - Pow2(8 * n - 1) <= v < Pow2(8 * n - 1)
    requires Holds(mem, off, FixedBytes(if v < 0 then v + Pow2(8 * n) else v, n))
    ensures Number(u, mem, off, Signed(n)) == Some((Word64(v), off + n))
  {
    var w: nat := if v < 0 then v + Pow2(8 * n) else v;
    SignExtendedIs(v, n);
    hide Pow2, SignExtended, Word64, FixedBytes, LittleEndian, Holds;
    FixedRead(mem, off, w, n);
  }

  lemma SignExtendedIs(v: int, n: nat)
    requires 0 < n <= 8 && 0 - Pow2(8 * n - 1) <= v < Pow2(8 * n - 1)
    ensures Pow2(8 * n) == 2 * Pow2(8 * n - 1)
    ensures SignExtended(if v < 0 then v + Pow2(8 * n) else v, n) == Word64(v)
  {
    Pow2Grows(8 * n, 64);
    Pow2Values();
    assert Pow2(8 * n) == 2 * Pow2(8 * n - 1);
    hide Pow2;
    if v < 0 {
      Wrapped(v);
    } else {
      SmallMod(v, W64);
    }
  }

  lemma {:induction false} GroupsElsewhere(u: Undefined, bytes: seq<Byte>, off: nat, shift: nat, value: nat, code: seq<Byte>, at: nat)
    requires Holds(code, at, bytes) && ReadGroups(u, bytes, off, shift, value).Some?
    ensures var g := ReadGroups(u, bytes, off, shift, value).value; ReadGroups(u, code, at + off, shift, value) == Some(g.(next := at + g.next))
    decreases |bytes| - off
  {
    assert code[at..at + |bytes|][off] == code[at + off];
    if bytes[off] >= 128 {
      GroupsElsewhere(u, bytes, off + 1, shift + 7, (value + ShiftLeft(u, bytes[off] % 128, shift)) % W64, code, at);
    }
  }

  lemma PartHeld(bytes: seq<Byte>, off: nat, n: nat, code: seq<Byte>, at: nat)
    requires Holds(code, at, bytes) && off + n <= |bytes|
    ensures code[at + off..at + off + n] == bytes[off..off + n]
  {
    var part, own := code[at + off..at + off + n], bytes[off..off + n];
    forall k | 0 <= k < |part|
      ensures part[k] == own[k]
    {
      assert code[at..at + |bytes|][off + k] == code[at + off + k];
    }
  }

  /** A number reads the same wherever its bytes stand. */
  lemma NumberElsewhere(u: Undefined, bytes: seq<Byte>, off: nat, e: Encoding, code: seq<Byte>, at: nat)
    requires e.Unsigned? || e.Signed? ==> 0 < e.width <= 8
    requires Holds(code, at, bytes) && Number(u, bytes, off, e).Some?
    ensures var r := Number(u, bytes, off, e).value; Number(u, code, at + off, e) == Some((r.0, at + r.1))
  {
    hide ReadGroups, LittleEndian, SignExtended;
    if e.UlebNumber? || e.SlebNumber? {
      GroupsElsewhere(u, bytes, off, 0, 0, code, at);
    } else {
      assert off + e.width <= |bytes|;
      PartHeld(bytes, off, e.width, code, at);
    }
  }

  class Cursor {
    const mem: seq<Byte>
    const u: Undefined
    var curOffset: nat

    constructor (mem: seq<Byte>, u: Undefined)
      ensures this.mem == mem && this.u == u && curOffset == 0
    {
      this.mem, this.u, curOffset := mem, u, 0;
    }

    /** A read that fails leaves the cursor where it was. */
    method ReadBytes(n: nat) returns (bytes: Option<seq<Byte>>)
      modifies this
      ensures bytes == if old(curOffset) + n <= |mem| then Some(mem[old(curOffset)..old(curOffset) + n]) else None
      ensures curOffset == if bytes.Some? then old(curOffset) + n else old(curOffset)
    {
      if curOffset + n > |mem| {
        return None;
      }
      bytes := Some(mem[curOffset..curOffset + n]);
      curOffset := curOffset + n;
    }

    method ReadGroupsOf7() returns (groups: Option<Groups>)
      modifies this
      ensures groups == ReadGroups(u, mem, old(curOffset), 0, 0)
      ensures curOffset == if groups.Some? then groups.value.next else if old(curOffset) <= |mem| then |mem| else old(curOffset)
    {
      var value: nat, shift: nat := 0, 0;
      while true
        invariant old(curOffset) <= curOffset && (curOffset <= |mem| || curOffset == old(curOffset))
        invariant ReadGroups(u, mem, curOffset, shift, value) == ReadGroups(u, mem, old(curOffset), 0, 0)
        decreases |mem| - curOffset
      {
        var read := ReadBytes(1);
        if read.None? {
          return None;
        }
        var byte := read.value[0];
        value := (value + ShiftLeft(u, byte % 128, shift)) % W64;
        shift := shift + 7;
        if byte < 128 {
          return Some(Groups(value, shift, byte, curOffset));
        }
      }
    }

    /** A read that fails leaves the cursor at the end of the memory. */
    method ReadULEB128() returns (value: Option<nat>)
      modifies this
      ensures match Uleb(u, mem, old(curOffset))
              case Some((v, next)) => value == Some(v) && curOffset == next
              case None => value == None && curOffset == if old(curOffset) <= |mem| then |mem| else old(curOffset)
    {
      var groups := ReadGroupsOf7();
      value := if groups.Some? then Some(groups.value.value) else None;
    }

    method ReadSLEB128() returns (value: Option<nat>)
      modifies this
      ensures match Sleb(u, mem, old(curOffset))
              case Some((v, next)) => value == Some(v) && curOffset == next
              case None => value == None && curOffset == if old(curOffset) <= |mem| then |mem| else old(curOffset)
    {
      var groups := ReadGroupsOf7();
      if groups.None? {
        return None;
      }
      value := Some(groups.value.value);
      if groups.value.last % 128 >= 64 {
        value := Some(SetFrom(u, groups.value.value, groups.value.shift));
      }
    }

    method ReadEncodedValue(e: Encoding) returns (value: Option<nat>)
      requires e.Unsigned? || e.Signed? ==> 0 < e.width <= 8
      modifies this
      ensures match Number(u, mem, old(curOffset), e)
              case Some((v, next)) => value == Some(v) && curOffset == next
              case None => value == None
    {
      match e {
        case UlebNumber => value := ReadULEB128();
        case SlebNumber => value := ReadSLEB128();
        case Unsigned(n) =>
          var bytes := ReadBytes(n);
          value := if bytes.Some? then Some(LittleEndian(bytes.value)) else None;
        case Signed(n) =>
          var bytes := ReadBytes(n);
          if bytes.None? {
            return None;
          }
          LittleEndianBound(bytes.value);
          value := Some(SignExtended(LittleEndian(bytes.value), n));
      }
    }
  }
}
