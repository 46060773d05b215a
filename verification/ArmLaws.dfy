/**
 What the unwind instructions of the ARM exception handling ABI do, by the bytes
 that encode them.
 */
module ArmLaws {
  import opened Arm = ArmExidx
  import opened Bits
  import opened OrderedKeys
  import opened WordSizes

  /** What decoding takes from the bytes and does to the state. */
  function Effect(shl: Shifter, ram: Memory, bytes: seq<Byte>, cpu: Cpu): (Status, seq<Byte>, Cpu)
    requires |cpu.regs| == 16
  {
    var (insn, rest) := Parse(shl, bytes);
    var (status, after) := Exec(ram, insn, cpu);
    (status, rest, after)
  }

  /** `Decode` does this. */
  lemma DecodedIs(shl: Shifter, ram: Memory, bytes: seq<Byte>, before: Cpu, data: seq<Byte>, status: Status, after: Cpu)
    requires |before.regs| == 16 && |after.regs| == 16
    ensures Decoded(shl, ram, bytes, before, data, status, after) <==>
            Effect(shl, ram, bytes, before) == (status, data, after)
  {
    hide Parse, Exec;
  }

  /** An instruction that was performed is followed by the others. */
  lemma GoesOn(shl: Shifter, ram: Memory, code: seq<Byte>, rest: seq<Byte>, cpu: Cpu, after: Cpu)
    requires |cpu.regs| == 16 == |after.regs| && code != []
    requires Effect(shl, ram, code + rest, cpu) == (NoStatus, rest, after)
    ensures Evaluate(shl, ram, code + rest, cpu) == Evaluate(shl, ram, rest, after)
  {
    hide Parse, Exec;
  }

  // ----- moving the virtual stack pointer

  /** A small multiple of four. */
  predicate SmallStep(n: nat) {
    4 <= n <= 0x100 && n % 4 == 0
  }

  /** 00xxxxxx adds. */
  lemma AddLaw(shl: Shifter, ram: Memory, n: nat, rest: seq<Byte>, cpu: Cpu)
    requires |cpu.regs| == 16 && SmallStep(n)
    ensures Effect(shl, ram, [(n - 4) / 4] + rest, cpu) == (NoStatus, rest, cpu.(cfa := (cpu.cfa + n) % TWO_32))
  {
    assert ([(n - 4) / 4] + rest)[1..] == rest;
  }

  /** 01xxxxxx subtracts. */
  lemma SubLaw(shl: Shifter, ram: Memory, n: nat, rest: seq<Byte>, cpu: Cpu)
    requires |cpu.regs| == 16 && SmallStep(n)
    ensures Effect(shl, ram, [0x40 + (n - 4) / 4] + rest, cpu) == (NoStatus, rest, cpu.(cfa := (cpu.cfa - n) % TWO_32))
  {
    assert ([0x40 + (n - 4) / 4] + rest)[1..] == rest;
  }

  /** 1001nnnn takes it from a register, but not from r13 or r15. */
  lemma SetLaw(shl: Shifter, ram: Memory, reg: nat, rest: seq<Byte>, cpu: Cpu)
    requires |cpu.regs| == 16 && reg < 16
    ensures Effect(shl, ram, [0x90 + reg] + rest, cpu) ==
            if reg == SP || reg == PC then (Reserved, rest, cpu) else (NoStatus, rest, cpu.(cfa := cpu.regs[reg]))
  {
    assert ([0x90 + reg] + rest)[1..] == rest;
  }

  /** 10110000 ends the instructions. */
  lemma FinishLaw(shl: Shifter, ram: Memory, rest: seq<Byte>, cpu: Cpu)
    requires |cpu.regs| == 16
    ensures Effect(shl, ram, [0xb0] + rest, cpu) == (Finish, rest, cpu)
  {
    assert ([0xb0] + rest)[1..] == rest;
  }

  /** 10000000 00000000 refuses to unwind. */
  lemma RefuseLaw(shl: Shifter, ram: Memory, rest: seq<Byte>, cpu: Cpu)
    requires |cpu.regs| == 16
    ensures Effect(shl, ram, [0x80, 0] + rest, cpu) == (NoUnwind, rest, cpu)
  {
    assert ([0x80, 0] + rest)[1..] == [0] + rest && ([0] + rest)[1..] == rest;
  }

  /** The first bytes that mean nothing. */
  predicate SpareByte(b: Byte) {
    0xb4 <= b < 0xb8 || 0xca <= b < 0xd0 || 0xd8 <= b
  }

  lemma SpareLaw(shl: Shifter, ram: Memory, b: Byte, rest: seq<Byte>, cpu: Cpu)
    requires |cpu.regs| == 16
    ensures SpareByte(b) ==> Effect(shl, ram, [b] + rest, cpu) == (Spare, rest, cpu)
    ensures !SpareByte(b) && (rest != [] ==> 1 <= rest[0] < 16) ==> Effect(shl, ram, [b] + rest, cpu).0 != Spare
  {
    hide Uleb, Ascending, Range, PopAll;
    assert ([b] + rest)[1..] == rest;
  }

  /** The first bytes that need a second one. */
  predicate LongByte(b: Byte) {
    0x80 <= b < 0x90 || b == 0xb1 || b == 0xb2 || b == 0xb3 || 0xc6 <= b <= 0xc9
  }

  /** Without the byte that is needed, or without any, the instructions are truncated. */
  lemma TruncatedLaw(shl: Shifter, ram: Memory, bytes: seq<Byte>, cpu: Cpu)
    requires |cpu.regs| == 16 && |bytes| <= 1
    ensures Effect(shl, ram, bytes, cpu).0 == Truncated <==> bytes == [] || LongByte(bytes[0])
  {
    hide Ascending, Range, PopAll;
  }

  /**
   Floating point and coprocessor registers are skipped: so many of eight bytes,
   with a word before them in the older format, or so many of four bytes.
   */
  lemma SkipLaw(shl: Shifter, ram: Memory, code: seq<Byte>, count: nat, size: nat, rest: seq<Byte>, cpu: Cpu)
    requires |cpu.regs| == 16
    requires || (1 <= count <= 8 && (code == [0xb7 + count]) && size == 8 * count + 4)
             || (1 <= count <= 6 && (code == [0xbf + count]) && size == 8 * count)
             || (1 <= count <= 8 && (code == [0xcf + count]) && size == 8 * count)
             || (1 <= count <= 16 && |code| == 2 && code[0] == 0xb3 && code[1] as int % 16 == count - 1
                 && size == 8 * count + 4)
             || (1 <= count <= 16 && |code| == 2 && (code[0] == 0xc6 || code[0] == 0xc8 || code[0] == 0xc9)
                 && code[1] as int % 16 == count - 1 && size == 8 * count)
    ensures Effect(shl, ram, code + rest, cpu) == (NoStatus, rest, cpu.(cfa := (cpu.cfa + size) % TWO_32))
  {
    hide Uleb, Ascending, Range, PopAll;
    var bytes := code + rest;
    if |code| == 1 {
      assert bytes[1..] == rest;
    } else {
      assert bytes[1..] == code[1..] + rest && (code[1..] + rest)[1..] == rest;
    }
  }

  // ----- a large step

  function EncodeUleb(v: nat): seq<Byte> {
    if v < 128 then [v] else [128 + v % 128] + EncodeUleb(v / 128)
  }

  /** Bits that do not overlap are added. */
  lemma {:induction false} OrAdds(a: nat, b: nat, n: nat)
    requires a < Pow2(n)
    ensures Bitwise(Or, a, b * Pow2(n)) == a + b * Pow2(n)
    decreases n
  {
    if n == 0 {
      OrOfZero(b);
    } else {
      var p := Pow2(n - 1);
      assert Pow2(n) == 2 * p && b * Pow2(n) == 2 * (b * p);
      hide Pow2, Bitwise;
      OrAdds(a / 2, b, n - 1);
      BitwiseUnfolds(Or, a, b * Pow2(n));
      assert (b * Pow2(n)) / 2 == b * p && (b * Pow2(n)) % 2 == 0;
      OrZeroBit(a % 2);
    }
  }

  lemma OrZeroBit(x: int)
    requires 0 <= x <= 1
    ensures OnBits(Or, x, 0) == x
  {
  }

  lemma {:induction false} OrOfZero(b: nat)
    ensures Bitwise(Or, 0, b * Pow2(0)) == b * Pow2(0)
  {
    BitwiseLaws(0, b);
    assert b * Pow2(0) == b;
    AndOfZero(b);
  }

  lemma {:induction false} AndOfZero(b: nat)
    ensures Bitwise(And, 0, b) == 0
  {
    if b > 0 {
      AndOfZero(b / 2);
      BitwiseUnfolds(And, 0, b);
    }
  }

  function Shifted(v: nat, shift: nat): nat {
    v * Pow2(shift)
  }

  /** A group is added to the ones before it. */
  lemma Accumulates(shl: Shifter, acc: nat, low: nat, shift: nat)
    requires acc < Pow2(shift) && Shifted(low, shift) < TWO_32 && shift < 32
    ensures Bitwise(Or, acc, Shl32(shl, low, shift)) == acc + Shifted(low, shift)
  {
    hide Bitwise, Pow2;
    OrAdds(acc, low, shift);
    RemainderIs(low * Pow2(shift), TWO_32, 0, low * Pow2(shift));
  }

  lemma NextGroup(shl: Shifter, b: Byte, rest: seq<Byte>, shift: nat, acc: int)
    ensures var value := Bitwise(Or, acc, Shl32(shl, b % 128, shift));
            Uleb(shl, [b] + rest, shift, acc) ==
            if b >= 128 then Uleb(shl, rest, shift + 7, value) else Some((value, rest))
  {
    hide Bitwise, Shl32;
    assert ([b] + rest)[1..] == rest;
  }

  lemma FirstGroup(v: nat, rest: seq<Byte>)
    ensures EncodeUleb(v) + rest == if v < 128 then [v] + rest else [128 + v % 128] + (EncodeUleb(v / 128) + rest)
  {
  }

  /** The groups of a number that fits 32 bits are read back. */
  lemma {:induction false} UlebIs(shl: Shifter, v: nat, rest: seq<Byte>, shift: nat, acc: nat)
    requires acc < Pow2(shift) && acc + Shifted(v, shift) < TWO_32 && shift < 32
    ensures Uleb(shl, EncodeUleb(v) + rest, shift, acc) == Some((acc + Shifted(v, shift), rest))
    decreases v
  {
    hide Bitwise, Pow2, Uleb, EncodeUleb, Shl32, Shifted;
    var low, high := v % 128, v / 128;
    assert v == low + 128 * high;
    Group(low, high, shift, acc);
    Accumulates(shl, acc, low, shift);
    FirstGroup(v, rest);
    if v < 128 {
      NextGroup(shl, v, rest, shift, acc);
    } else {
      NextGroup(shl, 128 + low, EncodeUleb(high) + rest, shift, acc);
      UlebIs(shl, high, rest, shift + 7, acc + Shifted(low, shift));
    }
  }

  lemma Group(low: nat, high: nat, shift: nat, acc: nat)
    requires low < 128 && acc < Pow2(shift) && acc + Shifted(low + 128 * high, shift) < TWO_32 && shift < 32
    ensures acc + Shifted(low, shift) < Pow2(shift + 7) && Shifted(low, shift) < TWO_32
    ensures acc + Shifted(low, shift) + Shifted(high, shift + 7) == acc + Shifted(low + 128 * high, shift)
    ensures high > 0 ==> shift + 7 < 32
  {
    hide Pow2;
    Pow2Byte(shift);
    GroupSum(low, high, Pow2(shift), Pow2(shift + 7), acc);
    if high > 0 { SmallShift(shift + 7, acc + Shifted(low + 128 * high, shift)); }
  }

  lemma SmallShift(shift: nat, v: nat)
    requires Pow2(shift) <= v < TWO_32
    ensures shift < 32
  {
    hide Pow2;
    if shift >= 32 {
      Pow2Known();
      Pow2Grows(32, shift);
      assert false;
    }
  }

  lemma GroupSum(low: nat, high: nat, p: nat, p7: nat, acc: nat)
    requires low < 128 && acc < p && p7 == 128 * p
    ensures acc + low * p < p7 && low * p <= (low + 128 * high) * p
    ensures acc + low * p + high * p7 == acc + (low + 128 * high) * p
    ensures high > 0 ==> acc + (low + 128 * high) * p >= p7
  {
    assert (127 - low) * p >= 0 && low * p + (127 - low) * p == 127 * p;
    assert 128 * high * p == high * p7;
    Distributes(low, 128 * high, p);
    if high > 0 { AtLeast(high, p7); }
  }

  /** 10110010 and a number add four times that number to 0x204. */
  lemma LargeAddLaw(shl: Shifter, ram: Memory, n: nat, rest: seq<Byte>, cpu: Cpu)
    requires |cpu.regs| == 16 && 0x204 <= n < TWO_32 && n % 4 == 0
    ensures Effect(shl, ram, [0xb2] + EncodeUleb((n - 0x204) / 4) + rest, cpu) ==
            (NoStatus, rest, cpu.(cfa := (cpu.cfa + n) % TWO_32))
  {
    hide Uleb, EncodeUleb, PopAll, Ascending, Range, Bitwise;
    var v := (n - 0x204) / 4;
    var bytes := [0xb2] + EncodeUleb(v) + rest;
    assert bytes[1..] == EncodeUleb(v) + rest;
    UlebIs(shl, v, rest, 0, 0);
    assert v * Pow2(0) == v;
    RemainderIs(n, TWO_32, 0, n);
  }

  // ----- pops

  /** Registers in ascending order, from `low` up to `high`. */
  predicate Registers(list: seq<nat>, low: nat, high: nat) {
    && (forall k :: 0 <= k < |list| ==> low <= list[k] <= high)
    && forall j, k :: 0 <= j < k < |list| ==> list[j] < list[k]
  }

  /** The number with the bits of the registers. */
  function MaskOf(list: seq<nat>): nat {
    if list == [] then 0 else Pow2(list[0]) + MaskOf(list[1..])
  }

  lemma FirstOf(list: seq<nat>, low: nat, high: nat)
    requires Registers(list, low, high)
    ensures list != [] ==> low <= list[0] <= high
  {
  }

  lemma RegistersRest(list: seq<nat>, low: nat, high: nat)
    requires Registers(list, low, high) && list != []
    ensures Registers(list[1..], list[0] + 1, high)
  {
  }

  lemma {:induction false} MaskMultiple(list: seq<nat>, low: nat, high: nat) returns (q: nat)
    requires Registers(list, low, high)
    ensures MaskOf(list) == q * Pow2(low)
    decreases |list|
  {
    if list == [] {
      q := 0;
    } else {
      RegistersRest(list, low, high);
      var q' := MaskMultiple(list[1..], list[0] + 1, high);
      Pow2Adds(low, list[0] - low);
      Pow2Adds(low, list[0] + 1 - low);
      q := Pow2(list[0] - low) + q' * Pow2(list[0] + 1 - low);
      Factor(Pow2(list[0] - low), q', Pow2(list[0] + 1 - low), Pow2(low));
    }
  }

  lemma Factor(a: nat, q: nat, b: nat, p: nat)
    ensures p * a + q * (p * b) == (a + q * b) * p
  {
    assert q * (p * b) == q * b * p;
    Distributes(a, q * b, p);
  }

  lemma MaskFirst(list: seq<nat>)
    requires list != []
    ensures MaskOf(list) == Pow2(list[0]) + MaskOf(list[1..])
  {
  }

  lemma NextBit(mask: nat, reg: nat, end: nat)
    requires reg < end
    ensures Ascending(mask, reg, end) ==
            (if Bit(mask, reg) then [reg] else []) + Ascending(mask, reg + 1, end)
  {
  }

  /** The lowest bit of a mask is set, and belongs to the bits below the others. */
  lemma BitIsSet(list: seq<nat>, reg: nat, high: nat, below: nat)
    requires Registers(list, reg, high) && list != [] && list[0] == reg && below < Pow2(reg)
    ensures Bit(below + MaskOf(list), reg) && Registers(list[1..], reg + 1, high)
    ensures below + MaskOf(list) == below + Pow2(reg) + MaskOf(list[1..]) && below + Pow2(reg) < Pow2(reg + 1)
  {
    hide Pow2, MaskOf, Registers, Bit;
    RegistersRest(list, reg, high);
    MaskFirst(list);
    Pow2Doubles(reg + 1);
    var q := MaskMultiple(list[1..], reg + 1, high);
    LowBit(below + MaskOf(list), below, reg, 1, q);
  }

  lemma BitIsClear(list: seq<nat>, reg: nat, high: nat, below: nat)
    requires Registers(list, reg, high) && (list != [] ==> list[0] != reg) && below < Pow2(reg)
    ensures !Bit(below + MaskOf(list), reg) && Registers(list, reg + 1, high) && below < Pow2(reg + 1)
  {
    hide Pow2, MaskOf, Registers, Bit;
    Above(list, reg, high);
    Pow2Doubles(reg + 1);
    var q := MaskMultiple(list, reg + 1, high);
    LowBit(below + MaskOf(list), below, reg, 0, q);
  }

  /** The registers of the mask are the ones it was made of, whatever the bits below. */
  lemma {:induction false} MaskGivesBack(list: seq<nat>, reg: nat, end: nat, below: nat)
    requires reg <= end && end > 0 && Registers(list, reg, end - 1) && below < Pow2(reg)
    ensures Ascending(below + MaskOf(list), reg, end) == list
    decreases end - reg
  {
    hide Pow2, MaskOf, Registers, Bit;
    if reg == end {
      FirstOf(list, reg, end - 1);
    } else {
      hide Ascending;
      NextBit(below + MaskOf(list), reg, end);
      if list != [] && list[0] == reg {
        BitIsSet(list, reg, end - 1, below);
        MaskGivesBack(list[1..], reg + 1, end, below + Pow2(reg));
        assert [reg] + list[1..] == list;
      } else {
        BitIsClear(list, reg, end - 1, below);
        MaskGivesBack(list, reg + 1, end, below);
      }
    }
  }

  lemma Above(list: seq<nat>, reg: nat, high: nat)
    requires Registers(list, reg, high) && (list != [] ==> list[0] != reg)
    ensures Registers(list, reg + 1, high)
  {
    forall k | 0 <= k < |list|
      ensures reg + 1 <= list[k]
    {
      assert list[0] <= list[k] by { if k > 0 { assert list[0] < list[k]; } }
    }
  }

  lemma LowBit(mask: nat, below: nat, reg: nat, bit: nat, q: nat)
    requires below < Pow2(reg) && bit <= 1 && mask == below + bit * Pow2(reg) + q * Pow2(reg + 1)
    ensures Bit(mask, reg) <==> bit == 1
  {
    hide Pow2;
    Pow2Doubles(reg + 1);
    var p := Pow2(reg);
    assert mask == (bit + 2 * q) * p + below;
    RemainderIs(mask, p, bit + 2 * q, below);
  }

  lemma {:induction false} MaskFits(list: seq<nat>, low: nat, high: nat)
    requires Registers(list, low, high)
    ensures MaskOf(list) < Pow2(high + 1) && (list != [] ==> MaskOf(list) >= Pow2(low))
    decreases |list|
  {
    if list != [] {
      RegistersRest(list, low, high);
      var n := |list| - 1;
      Pow2Grows(low, list[0]);
      FitsAbove(list, low, high);
    }
  }

  lemma {:induction false} FitsAbove(list: seq<nat>, low: nat, high: nat)
    requires Registers(list, low, high)
    ensures MaskOf(list) + Pow2(low) <= Pow2(high + 1) || list == []
    ensures list == [] ==> MaskOf(list) == 0
    decreases |list|
  {
    if list != [] {
      RegistersRest(list, low, high);
      var first := list[0];
      FitsAbove(list[1..], first + 1, high);
      assert Pow2(first + 1) == 2 * Pow2(first);
      Pow2Grows(low, first);
      Pow2Grows(first + 1, high + 1);
    }
  }

  /** The registers that were stored are back, the others are as they were, and the stack pointer is behind them. */
  ghost predicate PopsBack(cpu: Cpu, list: seq<nat>, saved: seq<nat>, after: Cpu)
    requires |cpu.regs| == 16 && |saved| == 16
  {
    && |after.regs| == 16
    && (forall i :: 0 <= i < 16 ==> after.regs[i] == if i in list then saved[i] else cpu.regs[i])
    && after.cfa == (if SP in list then saved[SP] else (cpu.cfa + 4 * |list|) % TWO_32)
    && after.pc_set == (cpu.pc_set || PC in list)
  }

  lemma Pops(shl: Shifter, ram: Memory, bytes: seq<Byte>, list: seq<nat>, rest: seq<Byte>, cpu: Cpu, saved: seq<nat>)
    requires |cpu.regs| == |saved| == 16 && cpu.cfa < TWO_32 && Stored(ram, cpu.cfa, list, saved)
    requires Parse(shl, bytes) == (Pop(list), rest)
    ensures var (status, data, after) := Effect(shl, ram, bytes, cpu);
            status == NoStatus && data == rest && PopsBack(cpu, list, saved, after)
  {
    hide Parse, Stored;
    PopUndoesPush(ram, cpu.cfa, list, saved, cpu.regs);
  }

  lemma HighMask(list: seq<nat>)
    requires list != [] && Registers(list, 4, 15)
    ensures 1 <= MaskOf(list) / 16 < 0x1000 && MaskOf(list) / 16 * 16 == MaskOf(list)
    ensures Ascending(MaskOf(list), 4, 16) == list
  {
    hide Pow2, MaskOf, Ascending, Registers;
    var q := MaskMultiple(list, 4, 15);
    MaskFits(list, 4, 15);
    Pow2Known();
    FourBits();
    MaskGivesBack(list, 4, 16, 0);
  }

  lemma FourBits()
    ensures Pow2(4) == 16 && Pow2(0) == 1
  {
  }

  lemma LowMask(list: seq<nat>)
    requires list != [] && Registers(list, 0, 3)
    ensures 1 <= MaskOf(list) < 16 && Ascending(MaskOf(list), 0, 4) == list && Count4(MaskOf(list)) == |list|
  {
    hide Pow2, MaskOf, Ascending, Registers, Count4;
    MaskFits(list, 0, 3);
    FourBits();
    MaskGivesBack(list, 0, 4, 0);
    CountIs(MaskOf(list));
  }

  /** The address of a word after another one. */
  function WordAt(addr: nat, k: nat): nat {
    (addr + 4 * k) % TWO_32
  }

  lemma WordAfter(addr: nat, k: nat)
    requires addr < TWO_32
    ensures WordAt(addr, 0) == addr && WordAt((addr + 4) % TWO_32, k) == WordAt(addr, k + 1)
  {
    AddsUp(addr, 4, 4 * k);
  }

  /** So many words can be read from the address on. */
  ghost predicate Readable(ram: Memory, addr: nat, count: nat) {
    forall k :: 0 <= k < count ==> ram(WordAt(addr, k)).Some?
  }

  lemma ReadableFirst(ram: Memory, addr: nat, count: nat)
    requires addr < TWO_32 && count > 0
    ensures Readable(ram, addr, count) <==> ram(addr).Some? && Readable(ram, (addr + 4) % TWO_32, count - 1)
  {
    hide WordAt;
    var next := (addr + 4) % TWO_32;
    WordAfter(addr, 0);
    if Readable(ram, addr, count) {
      forall k | 0 <= k < count - 1
        ensures ram(WordAt(next, k)).Some?
      {
        WordAfter(addr, k);
      }
    }
    if ram(addr).Some? && Readable(ram, next, count - 1) {
      forall k | 0 <= k < count
        ensures ram(WordAt(addr, k)).Some?
      {
        if k > 0 { WordAfter(addr, k - 1); }
      }
    }
  }

  /** A pop fails exactly if one of its words cannot be read. */
  lemma {:induction false} PopReads(ram: Memory, list: seq<nat>, regs: seq<nat>, addr: nat)
    requires addr < TWO_32 && forall k :: 0 <= k < |list| ==> list[k] < |regs|
    ensures PopAll(ram, list, regs, addr).ok <==> Readable(ram, addr, |list|)
    decreases |list|
  {
    if list == [] {
      assert Readable(ram, addr, 0);
    } else {
      hide Readable;
      ReadableFirst(ram, addr, |list|);
      if ram(addr).Some? { PopReads(ram, list[1..], regs[list[0] := ram(addr).value], (addr + 4) % TWO_32); }
    }
  }

  lemma PopStatus(ram: Memory, list: seq<nat>, cpu: Cpu)
    requires |cpu.regs| == 16
    ensures Exec(ram, Pop(list), cpu).0 == if PopAll(ram, list, cpu.regs, cpu.cfa).ok then NoStatus else ReadFailed
  {
    hide PopAll;
  }

  lemma PopFailsLaw(shl: Shifter, ram: Memory, list: seq<nat>, rest: seq<Byte>, cpu: Cpu)
    requires |cpu.regs| == 16 && cpu.cfa < TWO_32 && list != [] && Registers(list, 4, 15)
    ensures MaskOf(list) / 16 < 0x1000
    ensures var m := MaskOf(list) / 16;
            Effect(shl, ram, PopHigh(m) + rest, cpu).0 ==
            if Readable(ram, cpu.cfa, |list|) then NoStatus else ReadFailed
  {
    hide MaskOf, Parse, Ascending, PopAll, Readable, Exec, PopHigh;
    HighMask(list);
    PopStatus(ram, list, cpu);
    var m := MaskOf(list) / 16;
    var bytes := PopHigh(m) + rest;
    ParsesPop(shl, m, rest);
    PopReads(ram, list, cpu.regs, cpu.cfa);
  }

  /** 1000iiii iiiiiiii pops the registers from r4 to r15 whose bits are set. */
  lemma PopLaw(shl: Shifter, ram: Memory, list: seq<nat>, rest: seq<Byte>, cpu: Cpu, saved: seq<nat>)
    requires |cpu.regs| == |saved| == 16 && cpu.cfa < TWO_32 && Stored(ram, cpu.cfa, list, saved)
    requires list != [] && Registers(list, 4, 15)
    ensures MaskOf(list) / 16 < 0x1000
    ensures var m := MaskOf(list) / 16;
            var (status, data, after) := Effect(shl, ram, PopHigh(m) + rest, cpu);
            status == NoStatus && data == rest && PopsBack(cpu, list, saved, after)
  {
    hide MaskOf, Stored, Effect, PopsBack, Registers, Parse, Ascending, PopHigh;
    HighMask(list);
    var m := MaskOf(list) / 16;
    var bytes := PopHigh(m) + rest;
    ParsesPop(shl, m, rest);
    Pops(shl, ram, bytes, list, rest, cpu, saved);
  }

  /** A mask of twelve bits in two bytes. */
  function PopHigh(mask: nat): (code: seq<Byte>)
    requires mask < 0x1000
  {
    [0x80 + mask / 256, mask % 256]
  }

  lemma ParsesPop(shl: Shifter, m: nat, rest: seq<Byte>)
    requires 1 <= m < 0x1000
    ensures Parse(shl, PopHigh(m) + rest) == (Pop(Ascending(m * 16, 4, 16)), rest)
  {
    hide Ascending, Parse;
    var high, low := m / 256, m % 256;
    assert high * 256 + low == m;
    assert PopHigh(m) + rest == [0x80 + high, low] + rest;
    ParsesMask(shl, high, low, rest);
  }

  lemma ParsesMask(shl: Shifter, high: nat, low: Byte, rest: seq<Byte>)
    requires high < 16 && high * 256 + low > 0
    ensures Parse(shl, [0x80 + high, low] + rest) == (Pop(Ascending((high * 256 + low) * 16, 4, 16)), rest)
  {
    hide Ascending, Range, Uleb;
    var bytes := [0x80 + high, low] + rest;
    assert bytes[1..] == [low] + rest && ([low] + rest)[1..] == rest;
  }

  /** 10110001 0000iiii pops registers from r0 to r3. */
  lemma PopLowLaw(shl: Shifter, ram: Memory, list: seq<nat>, rest: seq<Byte>, cpu: Cpu, saved: seq<nat>)
    requires |cpu.regs| == |saved| == 16 && cpu.cfa < TWO_32 && Stored(ram, cpu.cfa, list, saved)
    requires list != [] && Registers(list, 0, 3)
    ensures MaskOf(list) < 16
    ensures var (status, data, after) := Effect(shl, ram, [0xb1, MaskOf(list)] + rest, cpu);
            status == NoStatus && data == rest && PopsBack(cpu, list, saved, after)
  {
    hide MaskOf, Stored, Effect, PopsBack, Ascending, Range, Uleb, Registers;
    LowMask(list);
    var bytes := [0xb1, MaskOf(list)] + rest;
    assert bytes[1..] == [MaskOf(list)] + rest && bytes[1..][1..] == rest;
    Pops(shl, ram, bytes, list, rest, cpu, saved);
  }

  /** The registers from r4 up to another one, and perhaps r14. */
  function UpTo(last: nat, lr: bool): seq<nat>
    requires 4 <= last
  {
    seq(last - 3, i => 4 + i) + if lr then [14] else []
  }

  /** 1010Lnnn pops r4 up to r(4+n), and r14 if L is set. */
  lemma PopUpToLaw(shl: Shifter, ram: Memory, last: nat, lr: bool, rest: seq<Byte>, cpu: Cpu, saved: seq<nat>)
    requires 4 <= last <= 11 && |cpu.regs| == |saved| == 16 && cpu.cfa < TWO_32
    requires Stored(ram, cpu.cfa, UpTo(last, lr), saved)
    ensures var (status, data, after) := Effect(shl, ram, [0x9c + last + if lr then 8 else 0] + rest, cpu);
            status == NoStatus && data == rest && PopsBack(cpu, UpTo(last, lr), saved, after)
  {
    RangeIs(4, last);
    assert Range(4, last) == seq(last - 3, i => 4 + i);
    assert Range(4, last) + (if lr then [14] else []) == UpTo(last, lr);
    assert !lr ==> Range(4, last) == UpTo(last, lr);
    hide Stored, Effect, PopsBack, Range, Ascending, Uleb;
    var bytes := [0x9c + last + if lr then 8 else 0] + rest;
    assert bytes[1..] == rest;
    Pops(shl, ram, bytes, UpTo(last, lr), rest, cpu, saved);
  }

  /** 11000111 0000iiii skips a word for each bit. */
  lemma SkipWordsLaw(shl: Shifter, ram: Memory, list: seq<nat>, rest: seq<Byte>, cpu: Cpu)
    requires |cpu.regs| == 16 && list != [] && Registers(list, 0, 3)
    ensures MaskOf(list) < 16
    ensures Effect(shl, ram, [0xc7, MaskOf(list)] + rest, cpu) ==
            (NoStatus, rest, cpu.(cfa := (cpu.cfa + 4 * |list|) % TWO_32))
  {
    hide MaskOf, Effect, Count4, Registers;
    LowMask(list);
    SkipMasked(shl, ram, MaskOf(list), rest, cpu);
  }

  lemma SkipMasked(shl: Shifter, ram: Memory, mask: Byte, rest: seq<Byte>, cpu: Cpu)
    requires |cpu.regs| == 16 && 1 <= mask < 16
    ensures Effect(shl, ram, [0xc7, mask] + rest, cpu) ==
            (NoStatus, rest, cpu.(cfa := (cpu.cfa + Count4(mask) * 4) % TWO_32))
  {
    hide Ascending, Range, Uleb, PopAll, Count4;
    var bytes := [0xc7, mask] + rest;
    assert bytes[1..] == [mask] + rest && bytes[1..][1..] == rest;
  }

  lemma CountIs(mask: nat)
    requires mask < 16
    ensures Count4(mask) == |Ascending(mask, 0, 4)|
  {
    assert Pow2(0) == 1 && Pow2(1) == 2 && Pow2(2) == 4 && Pow2(3) == 8;
    hide Pow2;
    assert Ascending(mask, 4, 4) == [];
    assert |Ascending(mask, 3, 4)| == mask / 8 % 2;
    assert |Ascending(mask, 2, 4)| == mask / 4 % 2 + mask / 8 % 2;
    assert |Ascending(mask, 1, 4)| == mask / 2 % 2 + mask / 4 % 2 + mask / 8 % 2;
  }
}
