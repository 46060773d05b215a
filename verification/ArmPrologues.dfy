/**
 Functions that save registers on the stack, the unwind instructions that undo
 this, and the table entries that hold them.
 */
module ArmPrologues {
  import opened Arm = ArmExidx
  import opened ArmLaws
  import opened Bits
  import opened OrderedKeys
  import opened WordSizes

  /** What the machine instructions of a prologue do. */
  datatype Act = Save(list: seq<nat>) | Reserve(n: nat) | SetFrame(reg: nat)

  datatype Callee = Callee(regs: seq<nat>, mem: Memory)

  /** Registers that one instruction pops: some of r0 to r3, or some of r4 to r14 without the stack pointer. */
  predicate Savable(list: seq<nat>) {
    list != [] && SP !in list && (Registers(list, 0, 3) || Registers(list, 4, 14))
  }

  function SizeOf(act: Act): nat {
    match act
    case Save(list) => 4 * |list|
    case Reserve(n) => n
    case SetFrame(_) => 0
  }

  /** The bytes that the acts take from the stack. */
  function Depth(acts: seq<Act>): nat {
    if acts == [] then 0 else Depth(acts[..|acts| - 1]) + SizeOf(acts[|acts| - 1])
  }

  function Lowered(s: Callee, n: nat): Callee
    requires |s.regs| == 16
  {
    s.(regs := s.regs[SP := if n <= s.regs[SP] then s.regs[SP] - n else 0])
  }

  /** The registers stand in memory one after the other. */
  function Written(mem: Memory, addr: nat, list: seq<nat>, regs: seq<nat>): Memory {
    (a: nat) =>
      if addr <= a < addr + 4 * |list| && (a - addr) % 4 == 0 && list[(a - addr) / 4] < |regs|
      then Some(regs[list[(a - addr) / 4]]) else mem(a)
  }

  /** The effect of an act. */
  function Done(s: Callee, act: Act): (s': Callee)
    requires |s.regs| == 16
    ensures |s'.regs| == 16
  {
    match act
    case Save(list) =>
      var s' := Lowered(s, 4 * |list|);
      s'.(mem := Written(s.mem, s'.regs[SP], list, s.regs))
    case Reserve(n) => Lowered(s, n)
    case SetFrame(reg) => if reg < 16 then s.(regs := s.regs[reg := s.regs[SP]]) else s
  }

  function After(entry: Callee, acts: seq<Act>): (s: Callee)
    requires |entry.regs| == 16
    ensures |s.regs| == 16
  {
    if acts == [] then entry else Done(After(entry, acts[..|acts| - 1]), acts[|acts| - 1])
  }

  // ----- unwind instructions

  function PopLow(mask: nat): (code: seq<Byte>)
    requires mask < 16
  {
    [0xb1, mask]
  }

  function StepUp(n: nat): (code: seq<Byte>)
    requires 4 <= n < TWO_32 && n % 4 == 0
  {
    if n <= 0x100 then [(n - 4) / 4]
    else if n <= 0x200 then [0x3f, (n - 0x104) / 4]
    else [0xb2] + EncodeUleb((n - 0x204) / 4)
  }

  /** The instructions that undo an act. */
  function Undo(act: Act): (code: seq<Byte>)
    requires act.Save? ==> Savable(act.list)
    requires act.Reserve? ==> 4 <= act.n < TWO_32 && act.n % 4 == 0
    requires act.SetFrame? ==> act.reg < 16
    ensures code != []
  {
    match act
    case Save(list) =>
      if Registers(list, 0, 3) then LowMask(list); PopLow(MaskOf(list))
      else Upwards(list); HighMask(list); PopHigh(MaskOf(list) / 16)
    case Reserve(n) => StepUp(n)
    case SetFrame(reg) => [0x90 + reg]
  }

  ghost predicate SavedIn(acts: seq<Act>, reg: nat) {
    exists i :: 0 <= i < |acts| && acts[i].Save? && reg in acts[i].list
  }

  ghost predicate FramedIn(acts: seq<Act>, reg: nat) {
    exists i :: 0 <= i < |acts| && acts[i] == SetFrame(reg)
  }

  /** An act that can be undone: a frame register was saved before, and is set once. */
  ghost predicate Proper(acts: seq<Act>, i: nat)
    requires i < |acts|
  {
    match acts[i]
    case Save(list) => Savable(list)
    case Reserve(n) => 4 <= n < TWO_32 && n % 4 == 0
    case SetFrame(reg) => reg < 16 && reg != SP && reg != PC && SavedIn(acts[..i], reg) && !FramedIn(acts[i + 1..], reg)
  }

  ghost predicate AllProper(acts: seq<Act>) {
    forall i :: 0 <= i < |acts| ==> Proper(acts, i)
  }

  /** The instructions that undo the first `k` acts, the last one first, and the end. */
  ghost function Code(acts: seq<Act>, k: nat): seq<Byte>
    requires AllProper(acts) && k <= |acts|
  {
    if k == 0 then [FINISH]
    else
      assert Proper(acts, k - 1);
      Undo(acts[k - 1]) + Code(acts, k - 1)
  }

  // ----- the proof

  /** The function was called with room for its frame. */
  ghost predicate Called(entry: Callee, acts: seq<Act>) {
    |entry.regs| == 16 && AllProper(acts) && Depth(acts) <= entry.regs[SP] < TWO_32
  }

  lemma Prefix(acts: seq<Act>, k: nat)
    requires k < |acts|
    ensures acts[..k + 1][..k] == acts[..k] && acts[..k + 1][k] == acts[k]
    ensures Depth(acts[..k + 1]) == Depth(acts[..k]) + SizeOf(acts[k])
  {
    assert acts[..k + 1][..k] == acts[..k];
  }

  lemma {:induction false} DepthUpTo(acts: seq<Act>, k: nat)
    requires k <= |acts|
    ensures Depth(acts[..k]) <= Depth(acts)
    decreases |acts| - k
  {
    hide SizeOf;
    if k == |acts| {
      assert acts[..k] == acts;
    } else {
      Prefix(acts, k);
      DepthUpTo(acts, k + 1);
    }
  }

  /** The stack pointer is below that of the entry by the depth. */
  lemma {:induction false} SpIs(entry: Callee, acts: seq<Act>, k: nat)
    requires Called(entry, acts) && k <= |acts|
    ensures After(entry, acts[..k]).regs[SP] == entry.regs[SP] - Depth(acts[..k])
    decreases k
  {
    if k > 0 {
      Prefix(acts, k - 1);
      SpIs(entry, acts, k - 1);
      DepthUpTo(acts, k);
      assert Proper(acts, k - 1);
    }
  }

  /** What stands above the stack pointer stays there. */
  lemma {:induction false} MemoryStays(entry: Callee, acts: seq<Act>, k: nat, a: nat)
    requires Called(entry, acts) && k <= |acts| && a >= After(entry, acts[..k]).regs[SP]
    ensures After(entry, acts).mem(a) == After(entry, acts[..k]).mem(a)
    decreases |acts| - k
  {
    if k == |acts| {
      assert acts[..k] == acts;
    } else {
      Prefix(acts, k);
      SpIs(entry, acts, k);
      SpIs(entry, acts, k + 1);
      MemoryStays(entry, acts, k + 1, a);
    }
  }

  /** A store is read back. */
  lemma WrittenBack(mem: Memory, addr: nat, list: seq<nat>, regs: seq<nat>, k: nat)
    requires k < |list| && list[k] < |regs|
    ensures Written(mem, addr, list, regs)(addr + 4 * k) == Some(regs[list[k]])
  {
    assert (addr + 4 * k - addr) % 4 == 0 && (addr + 4 * k - addr) / 4 == k;
  }

  lemma ReserveUndone(act: Act, rest: seq<Byte>, shl: Shifter, ram: Memory, cpu: Cpu)
    requires act.Reserve? && 4 <= act.n < TWO_32 && act.n % 4 == 0 && |cpu.regs| == 16
    ensures Evaluate(shl, ram, Undo(act) + rest, cpu) ==
            Evaluate(shl, ram, rest, cpu.(cfa := (cpu.cfa + act.n) % TWO_32))
  {
    hide Effect, Evaluate, EncodeUleb;
    var n := act.n;
    if n <= 0x100 {
      AddLaw(shl, ram, n, rest, cpu);
      GoesOn(shl, ram, Undo(act), rest, cpu, cpu.(cfa := (cpu.cfa + n) % TWO_32));
    } else if n <= 0x200 {
      var mid: seq<Byte>, half := [(n - 0x104) / 4], cpu.(cfa := (cpu.cfa + 0x100) % TWO_32);
      assert Undo(act) + rest == [0x3f] + (mid + rest);
      AddLaw(shl, ram, 0x100, mid + rest, cpu);
      GoesOn(shl, ram, [0x3f], mid + rest, cpu, half);
      AddLaw(shl, ram, n - 0x100, rest, half);
      AddsUp(cpu.cfa, 0x100, n - 0x100);
      GoesOn(shl, ram, mid, rest, half, cpu.(cfa := (cpu.cfa + n) % TWO_32));
    } else {
      LargeAddLaw(shl, ram, n, rest, cpu);
      GoesOn(shl, ram, Undo(act), rest, cpu, cpu.(cfa := (cpu.cfa + n) % TWO_32));
    }
  }

  lemma SaveUndone(act: Act, rest: seq<Byte>, shl: Shifter, ram: Memory, cpu: Cpu, saved: seq<nat>) returns (after: Cpu)
    requires act.Save? && Savable(act.list) && |cpu.regs| == 16 == |saved| && cpu.cfa < TWO_32
    requires Stored(ram, cpu.cfa, act.list, saved)
    ensures PopsBack(cpu, act.list, saved, after)
    ensures Evaluate(shl, ram, Undo(act) + rest, cpu) == Evaluate(shl, ram, rest, after)
  {
    hide Effect, Evaluate, MaskOf, Stored, Registers, PopsBack;
    var list := act.list;
    var code := UndoCode(act);
    if Registers(list, 0, 3) {
      PopLowLaw(shl, ram, list, rest, cpu, saved);
    } else {
      Upwards(list);
      PopLaw(shl, ram, list, rest, cpu, saved);
    }
    after := Effect(shl, ram, code + rest, cpu).2;
    assert |after.regs| == 16 by { SixteenStay(cpu, list, saved, after); }
    GoesOn(shl, ram, code, rest, cpu, after);
  }

  lemma SixteenStay(cpu: Cpu, list: seq<nat>, saved: seq<nat>, after: Cpu)
    requires |cpu.regs| == 16 && |saved| == 16 && PopsBack(cpu, list, saved, after)
    ensures |after.regs| == 16
  {
  }

  lemma UndoCode(act: Act) returns (code: seq<Byte>)
    requires act.Save? && Savable(act.list)
    ensures code == Undo(act) && code != []
    ensures var list := act.list;
            if Registers(list, 0, 3) then MaskOf(list) < 16 && code == PopLow(MaskOf(list))
            else MaskOf(list) / 16 < 0x1000 && code == PopHigh(MaskOf(list) / 16)
  {
    hide MaskOf, Registers, PopLow, PopHigh;
    code := Undo(act);
    if Registers(act.list, 0, 3) {
      LowMask(act.list);
    } else {
      Upwards(act.list);
      HighMask(act.list);
    }
  }

  lemma Upwards(list: seq<nat>)
    requires Registers(list, 4, 14)
    ensures Registers(list, 4, 15)
  {
  }

  lemma FrameUndone(reg: nat, rest: seq<Byte>, shl: Shifter, ram: Memory, cpu: Cpu)
    requires reg < 16 && reg != SP && reg != PC && |cpu.regs| == 16
    ensures Evaluate(shl, ram, Undo(SetFrame(reg)) + rest, cpu) == Evaluate(shl, ram, rest, cpu.(cfa := cpu.regs[reg]))
  {
    hide Effect, Evaluate;
    SetLaw(shl, ram, reg, rest, cpu);
    GoesOn(shl, ram, Undo(SetFrame(reg)), rest, cpu, cpu.(cfa := cpu.regs[reg]));
  }

  /**
   How far the unwinding has come: the virtual stack pointer is that after the
   first `k` acts, and so is every register that will not be restored later.
   */
  ghost predicate Undone(entry: Callee, acts: seq<Act>, k: nat, cpu: Cpu)
    requires |entry.regs| == 16 && k <= |acts|
  {
    && |cpu.regs| == 16 && cpu.cfa == After(entry, acts[..k]).regs[SP] && !cpu.pc_set
    && forall x :: 0 <= x < 16 && x != SP ==> Back(entry, acts, k, cpu, x)
  }

  ghost predicate Back(entry: Callee, acts: seq<Act>, k: nat, cpu: Cpu, x: nat)
    requires |entry.regs| == 16 == |cpu.regs| && k <= |acts| && x < 16
  {
    cpu.regs[x] == After(entry, acts[..k]).regs[x] || (SavedIn(acts[..k], x) && FramedIn(acts[k..], x))
  }

  lemma SavedEarlier(acts: seq<Act>, k: nat, x: nat)
    requires k < |acts|
    ensures SavedIn(acts[..k + 1], x) <==> SavedIn(acts[..k], x) || (acts[k].Save? && x in acts[k].list)
    ensures FramedIn(acts[k..], x) <==> FramedIn(acts[k + 1..], x) || acts[k] == SetFrame(x)
  {
    var a, b := acts[..k], acts[..k + 1];
    assert b[k] == acts[k] && forall i :: 0 <= i < k ==> a[i] == b[i];
    if i :| 0 <= i < |b| && b[i].Save? && x in b[i].list { assert i < k ==> a[i].Save? && x in a[i].list; }
    if i :| 0 <= i < |a| && a[i].Save? && x in a[i].list { assert b[i].Save? && x in b[i].list; }
    var c, d := acts[k + 1..], acts[k..];
    assert d[0] == acts[k] && forall i :: 0 <= i < |c| ==> c[i] == d[i + 1];
    if i :| 0 <= i < |d| && d[i] == SetFrame(x) { assert i > 0 ==> c[i - 1] == SetFrame(x); }
    if i :| 0 <= i < |c| && c[i] == SetFrame(x) { assert d[i + 1] == SetFrame(x); }
  }

  /** Undoing one act leads to the state before it. */
  lemma UndoneOne(entry: Callee, acts: seq<Act>, k: nat, cpu: Cpu, after: Cpu)
    requires Called(entry, acts) && k < |acts| && Undone(entry, acts, k + 1, cpu)
    requires match acts[k]
             case Save(list) => PopsBack(cpu, list, After(entry, acts[..k]).regs, after)
             case Reserve(n) => after == cpu.(cfa := (cpu.cfa + n) % TWO_32)
             case SetFrame(reg) => reg < 16 && after == cpu.(cfa := cpu.regs[reg])
    ensures Undone(entry, acts, k, after)
  {
    hide After, Depth, SavedIn, FramedIn, SizeOf, Registers;
    assert Proper(acts, k);
    Prefix(acts, k);
    SpIs(entry, acts, k);
    SpIs(entry, acts, k + 1);
    SizeIs(acts[k]);
    AfterOne(entry, acts, k);
    DepthUpTo(acts, k + 1);
    var s := After(entry, acts[..k]);
    RemainderIs(s.regs[SP], TWO_32, 0, s.regs[SP]);
    if acts[k].SetFrame? {
      SavedEarlier(acts, k, acts[k].reg);
      assert Back(entry, acts, k + 1, cpu, acts[k].reg);
    }
    forall x | 0 <= x < 16 && x != SP
      ensures Back(entry, acts, k, after, x)
    {
      assert Back(entry, acts, k + 1, cpu, x);
      SavedEarlier(acts, k, x);
    }
    if acts[k].Save? { NoPc(acts[k].list); }
  }

  lemma NoPc(list: seq<nat>)
    requires Savable(list)
    ensures PC !in list
  {
    if k :| 0 <= k < |list| && list[k] == PC {
      assert false;
    }
  }

  lemma SizeIs(act: Act)
    ensures SizeOf(act) == match act case Save(list) => 4 * |list| case Reserve(n) => n case SetFrame(_) => 0
  {
  }

  lemma AfterOne(entry: Callee, acts: seq<Act>, k: nat)
    requires |entry.regs| == 16 && k < |acts|
    ensures After(entry, acts[..k + 1]) == Done(After(entry, acts[..k]), acts[k])
  {
    assert acts[..k + 1][..k] == acts[..k] && acts[..k + 1][k] == acts[k];
  }

  /** The registers were written below the stack pointer. */
  lemma SavedBelow(entry: Callee, acts: seq<Act>, k: nat)
    requires Called(entry, acts) && k < |acts| && acts[k].Save?
    ensures var s, s' := After(entry, acts[..k]), After(entry, acts[..k + 1]);
            && s'.regs[SP] + 4 * |acts[k].list| == s.regs[SP] < TWO_32
            && s'.mem == Written(s.mem, s'.regs[SP], acts[k].list, s.regs)
            && forall j :: 0 <= j < |acts[k].list| ==> acts[k].list[j] < 16
  {
    hide After, Depth, Written;
    assert Proper(acts, k);
    AfterOne(entry, acts, k);
    Prefix(acts, k);
    SpIs(entry, acts, k);
    SpIs(entry, acts, k + 1);
  }

  /** What an act has saved is still there when it is undone. */
  lemma StillStored(entry: Callee, acts: seq<Act>, k: nat)
    requires Called(entry, acts) && k < |acts| && acts[k].Save?
    ensures var s, s' := After(entry, acts[..k]), After(entry, acts[..k + 1]);
            Stored(After(entry, acts).mem, s'.regs[SP], acts[k].list, s.regs)
  {
    hide After, Depth, Written, Done;
    var s, s', list := After(entry, acts[..k]), After(entry, acts[..k + 1]), acts[k].list;
    SavedBelow(entry, acts, k);
    var sp := s'.regs[SP];
    forall j | 0 <= j < |list|
      ensures list[j] < |s.regs| && After(entry, acts).mem((sp + 4 * j) % TWO_32) == Some(s.regs[list[j]])
    {
      var a := sp + 4 * j;
      RemainderIs(a, TWO_32, 0, a);
      MemoryStays(entry, acts, k + 1, a);
      WrittenBack(s.mem, sp, list, s.regs, j);
    }
  }

  /** From the state after the first `k` acts, their instructions lead back to the entry. */
  lemma {:induction false} UndoneAll(shl: Shifter, entry: Callee, acts: seq<Act>, k: nat, tail: seq<Byte>, cpu: Cpu)
    requires Called(entry, acts) && k <= |acts| && Undone(entry, acts, k, cpu)
    ensures var (status, rest, after) := Evaluate(shl, After(entry, acts).mem, Code(acts, k) + tail, cpu);
            status == Finish && rest == tail && Undone(entry, acts, 0, after)
    decreases k
  {
    hide Undone, After, Evaluate, Undo, Depth, Stored;
    var ram := After(entry, acts).mem;
    if k == 0 {
      Ends(shl, ram, tail, cpu, entry, acts);
    } else {
      var act := acts[k - 1];
      assert Proper(acts, k - 1);
      assert Code(acts, k) + tail == Undo(act) + (Code(acts, k - 1) + tail);
      var after := OneUndone(shl, entry, acts, k - 1, Code(acts, k - 1) + tail, cpu);
      UndoneAll(shl, entry, acts, k - 1, tail, after);
    }
  }

  lemma Ends(shl: Shifter, ram: Memory, tail: seq<Byte>, cpu: Cpu, entry: Callee, acts: seq<Act>)
    requires |entry.regs| == 16 && Undone(entry, acts, 0, cpu)
    ensures Evaluate(shl, ram, [FINISH] + tail, cpu) == (Finish, tail, cpu)
  {
    FinishLaw(shl, ram, tail, cpu);
  }

  lemma OneUndone(shl: Shifter, entry: Callee, acts: seq<Act>, k: nat, rest: seq<Byte>, cpu: Cpu) returns (after: Cpu)
    requires Called(entry, acts) && k < |acts| && Undone(entry, acts, k + 1, cpu)
    ensures Proper(acts, k) && |cpu.regs| == 16 == |after.regs| && Undone(entry, acts, k, after)
    ensures Evaluate(shl, After(entry, acts).mem, Undo(acts[k]) + rest, cpu) ==
            Evaluate(shl, After(entry, acts).mem, rest, after)
  {
    hide After, Evaluate, Undo, Depth, Stored, Back, PopsBack, Savable, SavedIn, FramedIn;
    assert Proper(acts, k);
    var ram := After(entry, acts).mem;
    SpIs(entry, acts, k + 1);
    match acts[k] {
      case Save(list) =>
        StillStored(entry, acts, k);
        after := SaveUndone(acts[k], rest, shl, ram, cpu, After(entry, acts[..k]).regs);
      case Reserve(n) =>
        after := cpu.(cfa := (cpu.cfa + n) % TWO_32);
        ReserveUndone(acts[k], rest, shl, ram, cpu);
      case SetFrame(reg) =>
        after := cpu.(cfa := cpu.regs[reg]);
        FrameUndone(reg, rest, shl, ram, cpu);
    }
    UndoneOne(entry, acts, k, cpu, after);
  }

  /** Unwinding from the end of the prologue restores the registers and the stack pointer of the entry. */
  lemma UnwindsPrologue(shl: Shifter, entry: Callee, acts: seq<Act>, tail: seq<Byte>)
    requires Called(entry, acts)
    ensures var s := After(entry, acts);
            var (status, rest, after) := Evaluate(shl, s.mem, Code(acts, |acts|) + tail,
                                                  Cpu(s.regs, s.regs[SP], false));
            && status == Finish && rest == tail && |after.regs| == 16 && after.cfa == entry.regs[SP]
            && forall x :: 0 <= x < 16 && x != SP ==> after.regs[x] == entry.regs[x]
  {
    hide Evaluate, Code;
    assert acts[..|acts|] == acts && acts[..0] == [];
    var s := After(entry, acts);
    var cpu := Cpu(s.regs, s.regs[SP], false);
    assert Undone(entry, acts, |acts|, cpu);
    UndoneAll(shl, entry, acts, |acts|, tail, cpu);
    var (status, rest, after) := Evaluate(shl, s.mem, Code(acts, |acts|) + tail, cpu);
    forall x | 0 <= x < 16 && x != SP
      ensures after.regs[x] == entry.regs[x]
    {
      assert Back(entry, acts, 0, after, x);
    }
  }

  // ----- table entries

  /** The word with these bytes, the highest first. */
  function WordOf(a: Byte, b: Byte, c: Byte, d: Byte): nat {
    0x100_0000 * a as int + 0x1_0000 * b as int + 0x100 * c as int + d as int
  }

  lemma BytesOfWord(a: Byte, b: Byte, c: Byte, d: Byte)
    ensures WordBytes(WordOf(a, b, c, d)) == [a, b, c, d]
    ensures ByteOf(WordOf(a, b, c, d), 3) == a && ByteOf(WordOf(a, b, c, d), 2) == b
    ensures ByteOf(WordOf(a, b, c, d), 1) == c && ByteOf(WordOf(a, b, c, d), 0) == d
    ensures WordOf(a, b, c, d) >= 0x8000_0000 <==> a >= 0x80
  {
    hide Pow2, ByteOf;
    var a': int, b': int, c': int, d': int := a, b, c, d;
    var w := WordOf(a, b, c, d);
    assert Pow2(0) == 1 && Pow2(8) == 0x100 && Pow2(16) == 0x1_0000 && Pow2(24) == 0x100_0000 by {
      Pow2Known();
      Pow2Zero();
      Pow2Byte(16);
    }
    OneByte(w, 3, 0, a', 0x1_0000 * b' + 0x100 * c' + d', 0x100_0000);
    OneByte(w, 2, a', b', 0x100 * c' + d', 0x1_0000);
    OneByte(w, 1, 0x100 * a' + b', c', d', 0x100);
    OneByte(w, 0, 0x1_0000 * a' + 0x100 * b' + c', d', 0, 1);
  }

  lemma OneByte(w: nat, k: nat, above: nat, byte: nat, below: nat, p: nat)
    requires p == Pow2(8 * k) && byte < 256 && below < p && w == (256 * above + byte) * p + below
    ensures ByteOf(w, k) == byte
  {
    hide Pow2;
    RemainderIs(w, p, 256 * above + byte, below);
    RemainderIs(256 * above + byte, 256, above, byte);
  }

  /** The bytes stand in the words from the address on. */
  ghost predicate WordsAt(mem: Memory, addr: nat, bytes: seq<Byte>) {
    && |bytes| % 4 == 0 && addr + |bytes| < TWO_32
    && forall k :: 0 <= k < |bytes| / 4 ==>
         mem(addr + 4 * k) == Some(WordOf(bytes[4 * k], bytes[4 * k + 1], bytes[4 * k + 2], bytes[4 * k + 3]))
  }

  lemma WordsRest(mem: Memory, addr: nat, bytes: seq<Byte>)
    requires WordsAt(mem, addr, bytes) && bytes != []
    ensures WordsAt(mem, addr + 4, bytes[4..])
  {
    hide WordOf;
    var rest := bytes[4..];
    forall k | 0 <= k < |rest| / 4
      ensures mem(addr + 4 + 4 * k) == Some(WordOf(rest[4 * k], rest[4 * k + 1], rest[4 * k + 2], rest[4 * k + 3]))
    {
      var j := k + 1;
      assert mem(addr + 4 * j) == Some(WordOf(bytes[4 * j], bytes[4 * j + 1], bytes[4 * j + 2], bytes[4 * j + 3]));
    }
  }

  lemma FirstWord(mem: Memory, addr: nat, bytes: seq<Byte>)
    requires WordsAt(mem, addr, bytes) && bytes != []
    ensures |bytes| >= 4 && addr + 4 < TWO_32 && |bytes[4..]| / 4 == |bytes| / 4 - 1
    ensures mem(addr) == Some(WordOf(bytes[0], bytes[1], bytes[2], bytes[3]))
  {
    hide WordOf;
    assert mem(addr + 4 * 0) == Some(WordOf(bytes[4 * 0], bytes[4 * 0 + 1], bytes[4 * 0 + 2], bytes[4 * 0 + 3]));
  }

  lemma NextWord(mem: Memory, addr: nat, n: nat, word: nat)
    requires addr + 4 < TWO_32 && mem(addr) == Some(word) && n > 0
    ensures TableWords(mem, addr, n) == Appended(WordBytes(word), TableWords(mem, addr + 4, n - 1))
  {
    hide WordBytes;
    RemainderIs(addr + 4, TWO_32, 0, addr + 4);
  }

  lemma {:induction false} WordsReadBack(mem: Memory, addr: nat, bytes: seq<Byte>)
    requires WordsAt(mem, addr, bytes)
    ensures TableWords(mem, addr, |bytes| / 4) == Some(bytes)
    decreases |bytes|
  {
    if bytes != [] {
      hide WordBytes, WordOf, WordsAt, TableWords;
      FirstWord(mem, addr, bytes);
      WordsRest(mem, addr, bytes);
      WordsReadBack(mem, addr + 4, bytes[4..]);
      NextWord(mem, addr, |bytes| / 4, WordOf(bytes[0], bytes[1], bytes[2], bytes[3]));
      BytesOfWord(bytes[0], bytes[1], bytes[2], bytes[3]);
      assert [bytes[0], bytes[1], bytes[2], bytes[3]] + bytes[4..] == bytes;
    }
  }

  /** The bytes of an entry in a word of their own, with personality 0. */
  ghost predicate InWord(mem: Memory, addr: nat, data: seq<Byte>) {
    |data| == 3 && mem(addr) == Some(WordOf(0x80, data[0], data[1], data[2]))
  }

  /** The same with up to five more words, with personality 1 or 2. */
  ghost predicate InWords(mem: Memory, addr: nat, data: seq<Byte>) {
    && 2 <= |data| <= 22 && WordsAt(mem, addr + 4, data[2..])
    && (|| mem(addr) == Some(WordOf(0x81, (|data| - 2) / 4, data[0], data[1]))
        || mem(addr) == Some(WordOf(0x82, (|data| - 2) / 4, data[0], data[1])))
  }

  /** The same after the address of a personality routine. */
  ghost predicate AfterRoutine(mem: Memory, addr: nat, data: seq<Byte>) {
    && 3 <= |data| <= 23 && WordsAt(mem, addr + 8, data[3..]) && mem(addr).Some? && mem(addr).value < 0x8000_0000
    && mem(addr + 4) == Some(WordOf((|data| - 3) / 4, data[0], data[1], data[2]))
  }

  /** The word at `place` leads to another one, up to 2^30 bytes before or after it. */
  predicate LeadsTo(mem: Memory, place: nat, addr: nat) {
    && addr < TWO_32 && -0x4000_0000 <= addr as int - place < 0x4000_0000
    && mem(place) == Some((addr as int - place) % 0x8000_0000) && addr as int - place != 1
  }

  /** The entry has these bytes: in place, or in the table that it leads to. */
  ghost predicate Packed(mem: Memory, entry: nat, data: seq<Byte>) {
    && entry % 2 == 0 && entry + 4 < TWO_32
    && (|| InWord(mem, entry + 4, data)
        || exists addr: nat :: LeadsTo(mem, entry + 4, addr)
                               && (InWord(mem, addr, data) || InWords(mem, addr, data)
                                   || AfterRoutine(mem, addr, data)))
  }

  lemma Follows(mem: Memory, place: nat, addr: nat)
    requires LeadsTo(mem, place, addr)
    ensures mem(place).value != 1 && mem(place).value < 0x8000_0000 && Prel31(place, mem(place).value) == addr
  {
    var d: int := addr as int - place;
    RemainderIs(d, 0x8000_0000, if d < 0 then -1 else 0, if d < 0 then d + 0x8000_0000 else d);
    RemainderIs(addr, TWO_32, 0, addr);
    RemainderIs(mem(place).value, 0x8000_0000, 0, mem(place).value);
  }

  lemma WordReadsBack(mem: Memory, addr: nat, data: seq<Byte>)
    requires addr < TWO_32 && InWord(mem, addr, data)
    ensures TableData(mem, addr) == Bytes(Finished(data))
  {
    hide ByteOf, WordOf, TableWords;
    BytesOfWord(0x80, data[0], data[1], data[2]);
    NoWords(mem, addr);
    assert [data[0], data[1], data[2]] + [] == data;
  }

  lemma ShortReadsBack(mem: Memory, addr: nat, data: seq<Byte>)
    requires addr < TWO_32 && InWords(mem, addr, data)
    ensures TableData(mem, addr) == Bytes(Finished(data))
  {
    hide ByteOf, WordOf, TableWords, WordsAt;
    WordsFit(mem, addr + 4, data[2..]);
    BytesOfWord(0x81, (|data| - 2) / 4, data[0], data[1]);
    BytesOfWord(0x82, (|data| - 2) / 4, data[0], data[1]);
    WordsReadBack(mem, addr + 4, data[2..]);
    RemainderIs(addr + 4, TWO_32, 0, addr + 4);
    assert [data[0], data[1]] + data[2..] == data;
  }

  lemma RoutineReadsBack(mem: Memory, addr: nat, data: seq<Byte>)
    requires addr < TWO_32 && AfterRoutine(mem, addr, data)
    ensures TableData(mem, addr) == Bytes(Finished(data))
  {
    hide ByteOf, WordOf, TableWords, WordsAt;
    WordsFit(mem, addr + 8, data[3..]);
    BytesOfWord((|data| - 3) / 4, data[0], data[1], data[2]);
    WordsReadBack(mem, addr + 8, data[3..]);
    RemainderIs(addr + 4, TWO_32, 0, addr + 4);
    RemainderIs(addr + 8, TWO_32, 0, addr + 8);
    assert [data[0], data[1], data[2]] + data[3..] == data;
  }

  lemma TableReadsBack(mem: Memory, addr: nat, data: seq<Byte>)
    requires addr < TWO_32 && (InWord(mem, addr, data) || InWords(mem, addr, data) || AfterRoutine(mem, addr, data))
    ensures TableData(mem, addr) == Bytes(Finished(data))
  {
    hide TableData, InWord, InWords, AfterRoutine;
    if InWord(mem, addr, data) {
      WordReadsBack(mem, addr, data);
    } else if InWords(mem, addr, data) {
      ShortReadsBack(mem, addr, data);
    } else {
      RoutineReadsBack(mem, addr, data);
    }
  }

  lemma NoWords(mem: Memory, addr: nat)
    ensures TableWords(mem, addr, 0) == Some([])
  {
  }

  lemma WordsFit(mem: Memory, addr: nat, bytes: seq<Byte>)
    requires WordsAt(mem, addr, bytes)
    ensures |bytes| % 4 == 0 && addr + |bytes| < TWO_32
  {
  }

  /** The bytes that were packed into an entry are read back, and a finish after them if they do not end with one. */
  lemma EntryReadsBack(mem: Memory, entry: nat, data: seq<Byte>)
    requires Packed(mem, entry, data)
    ensures data != [] && EntryData(mem, entry) == Bytes(if data[|data| - 1] == FINISH then data else data + [FINISH])
  {
    hide ByteOf, WordOf, TableData, Prel31, InWords, AfterRoutine;
    var place := entry + 4;
    RemainderIs(place, TWO_32, 0, place);
    if InWord(mem, place, data) {
      BytesOfWord(0x80, data[0], data[1], data[2]);
      assert [data[0], data[1], data[2]] == data;
    } else {
      var addr: nat :| LeadsTo(mem, place, addr)
                       && (InWord(mem, addr, data) || InWords(mem, addr, data) || AfterRoutine(mem, addr, data));
      Follows(mem, place, addr);
      TableReadsBack(mem, addr, data);
      SomeData(mem, addr, data);
    }
  }

  lemma SomeData(mem: Memory, addr: nat, data: seq<Byte>)
    requires InWord(mem, addr, data) || InWords(mem, addr, data) || AfterRoutine(mem, addr, data)
    ensures data != []
  {
    hide WordOf, WordsAt;
  }

  /** What keeps an entry from being read. */
  lemma EntryRefused(mem: Memory, entry: nat, a: Byte, b: Byte, c: Byte, d: Byte)
    requires entry + 4 < TWO_32
    ensures entry % 2 == 1 ==> EntryData(mem, entry) == Failed(InvalidAlignment)
    ensures entry % 2 == 0 && mem(entry + 4).None? ==> EntryData(mem, entry) == Failed(ReadFailed)
    ensures entry % 2 == 0 && mem(entry + 4) == Some(1) ==> EntryData(mem, entry) == Failed(NoUnwind)
    ensures entry % 2 == 0 && mem(entry + 4) == Some(WordOf(a, b, c, d)) && a >= 0x80 && a % 16 != 0 ==>
              EntryData(mem, entry) == Failed(InvalidPersonality)
  {
    hide ByteOf, WordOf, TableData, Prel31;
    RemainderIs(entry + 4, TWO_32, 0, entry + 4);
    BytesOfWord(a, b, c, d);
  }

  lemma TableRefused(mem: Memory, addr: nat, a: Byte, n: Byte, c: Byte, d: Byte)
    requires addr + 4 < TWO_32
    ensures mem(addr).None? ==> TableData(mem, addr) == Failed(ReadFailed)
    ensures mem(addr) == Some(WordOf(a, n, c, d)) && a >= 0x80 && a % 16 > 2 ==>
              TableData(mem, addr) == Failed(InvalidPersonality)
    ensures mem(addr) == Some(WordOf(a, n, c, d)) && a >= 0x80 && 1 <= a % 16 <= 2 && n > 5 ==>
              TableData(mem, addr) == Failed(Malformed)
    ensures mem(addr) == Some(WordOf(a, n, c, d)) && a < 0x80 && mem(addr + 4).None? ==>
              TableData(mem, addr) == Failed(ReadFailed)
  {
    hide ByteOf, WordOf, TableWords;
    RemainderIs(addr + 4, TWO_32, 0, addr + 4);
    BytesOfWord(a, n, c, d);
  }

  /**
   Unwinding a function by its table entry: from the end of its prologue, every
   register and the stack pointer are those of its entry.
   */
  method Unwind(exidx: ArmExidx, entry_offset: nat, ghost entry: Callee, ghost acts: seq<Act>, ghost data: seq<Byte>)
    returns (ok: bool)
    requires Called(entry, acts) && Packed(exidx.elf_memory, entry_offset, data)
    requires Code(acts, |acts|) <= data
    requires var s := After(entry, acts);
             exidx.regs == s.regs && exidx.cfa == s.regs[SP] && exidx.process_memory == s.mem
    modifies exidx
    ensures ok && |exidx.regs| == 16 && exidx.cfa == entry.regs[SP]
    ensures forall x :: 0 <= x < 16 && x != SP ==> exidx.regs[x] == entry.regs[x]
  {
    hide Packed, Code, Evaluate, EntryData;
    ghost var s, code := After(entry, acts), Code(acts, |acts|);
    EntryReadsBack(exidx.elf_memory, entry_offset, data);
    ok := exidx.ExtractEntryData(entry_offset);
    ghost var bytes := exidx.data;
    ghost var tail := bytes[|code|..];
    assert bytes == code + tail;
    UnwindsPrologue(exidx.shl, entry, acts, tail);
    var finished, _ := exidx.Eval();
    ok := finished;
  }
}
