/**
 Functions that save registers on the stack, and the call frame instructions that a
 compiler writes for them: at every pc they lead back to the caller.
 */
module Prologues {
  import opened Bits
  import opened Cfi = CallFrameLaws
  import opened DwarfCfa
  import opened FrameLaws
  import opened FrameTable
  import opened Laws = DwarfOpLaws
  import opened Ops = DwarfOp
  import opened OrderedKeys
  import Eval = RegisterEval
  import opened Unwinding
  import opened WordSizes

  /** What the machine instructions of a prologue do. */
  datatype Act = Save(reg: nat) | Allocate(slots: nat) | SetFrame

  /** An instruction of `length` units of code. */
  datatype Code = Code(length: nat, act: Act)

  /**
   The stack and frame pointer, the return address, and the size of a slot;
   `pushed` says that a call pushes the return address.
   */
  datatype Abi = Abi(sp: nat, fp: nat, ra: nat, width: nat, pushed: bool)

  /** The registers and the memory of the callee. */
  datatype Callee = Callee(regs: seq<nat>, ram: nat -> Option<Byte>)

  function Stored(ram: nat -> Option<Byte>, addr: nat, bytes: seq<Byte>): nat -> Option<Byte> {
    (a: nat) => if addr <= a < addr + |bytes| then Some(bytes[a - addr]) else ram(a)
  }

  /** The bytes of some slots. */
  function Size(abi: Abi, slots: nat): nat {
    slots * abi.width
  }

  lemma SizeAdds(abi: Abi, a: nat, b: nat)
    ensures Size(abi, a + b) == Size(abi, a) + Size(abi, b) && Size(abi, 1) == abi.width && Size(abi, 0) == 0
  {
    Distributes(a, b, abi.width);
  }

  function Moved(abi: Abi, s: Callee, slots: nat): Callee
    requires abi.sp < |s.regs|
  {
    s.(regs := s.regs[abi.sp := if Size(abi, slots) <= s.regs[abi.sp] then s.regs[abi.sp] - Size(abi, slots) else 0])
  }

  /** The effect of an instruction. */
  function Done(abi: Abi, s: Callee, act: Act): Callee
    requires abi.sp < |s.regs| && abi.fp < |s.regs|
  {
    match act
    case Save(reg) =>
      var s' := Moved(abi, s, 1);
      if reg < |s.regs| then s'.(ram := Stored(s.ram, s'.regs[abi.sp], Bits.Bytes(abi.width, s.regs[reg]))) else s'
    case Allocate(slots) => Moved(abi, s, slots)
    case SetFrame => s.(regs := s.regs[abi.fp := s.regs[abi.sp]])
  }

  function SlotsOf(act: Act): nat {
    match act
    case Save(_) => 1
    case Allocate(slots) => slots
    case SetFrame => 0
  }

  /** How many slots lie between the frame address and the stack pointer. */
  function Depth(abi: Abi, code: seq<Code>): nat {
    if code == [] then if abi.pushed then 1 else 0
    else Depth(abi, code[..|code| - 1]) + SlotsOf(code[|code| - 1].act)
  }

  /** The frame pointer has been set. */
  predicate Framed(code: seq<Code>) {
    exists i :: 0 <= i < |code| && code[i].act == SetFrame
  }

  /** The state after some of the instructions. */
  function After(abi: Abi, entry: Callee, code: seq<Code>): (s: Callee)
    requires abi.sp < |entry.regs| && abi.fp < |entry.regs|
    ensures |s.regs| == |entry.regs|
  {
    if code == [] then entry else Done(abi, After(abi, entry, code[..|code| - 1]), code[|code| - 1].act)
  }

  // ----- what the compiler writes

  /** The CIE: the frame address at the entry, and the return address if it is there. */
  function CieInsns(abi: Abi): seq<Insn> {
    if abi.pushed then [DefCfa(abi.sp, abi.width), DefOffset(abi.ra, 1)] else [DefCfa(abi.sp, 0)]
  }

  /** The instructions for the last act of the code: where the frame address is now, and what was saved. */
  ghost function Directives(abi: Abi, code: seq<Code>): seq<Insn>
    requires code != []
  {
    var offset := if Framed(code[..|code| - 1]) then [] else [DefCfaOffset(Size(abi, Depth(abi, code)))];
    match code[|code| - 1].act
    case Save(reg) => offset + [DefOffset(reg, Depth(abi, code))]
    case Allocate(_) => offset
    case SetFrame => [DefCfaRegister(abi.fp)]
  }

  ghost function AllDirectives(abi: Abi, code: seq<Code>): seq<Insn> {
    if code == [] then [] else AllDirectives(abi, code[..|code| - 1]) + Directives(abi, code)
  }

  /** One line for each instruction. */
  ghost function Lines(abi: Abi, code: seq<Code>): seq<Line> {
    seq(|code|, i requires 0 <= i < |code| => Advance(code[i].length, Directives(abi, code[..i + 1])))
  }

  /** Registers are saved once, and before they are overwritten; the frame pointer is set once. */
  ghost predicate Proper(abi: Abi, code: seq<Code>, count: nat) {
    && (forall i :: 0 <= i < |code| && code[i].act.Save? ==> Savable(abi, code, i, count))
    && (forall i :: 0 <= i < |code| && code[i].act == SetFrame ==>
          && !Framed(code[..i]) && exists j :: 0 <= j < i && code[j].act == Save(abi.fp))
  }

  ghost predicate Savable(abi: Abi, code: seq<Code>, i: nat, count: nat)
    requires i < |code| && code[i].act.Save?
  {
    var reg := code[i].act.reg;
    && reg < count && reg != abi.sp && !(abi.pushed && reg == abi.ra)
    && forall j :: 0 <= j < i ==> code[j].act != code[i].act
  }

  // ----- the proof

  /** The environment of the callee. */
  function At(env: Env, s: Callee): Env {
    env.(regs := s.regs, ram := s.ram)
  }

  /** The function was called: the stack has room for its frame, and the return address is where it should be. */
  ghost predicate Called(env: Env, abi: Abi, entry: Callee, code: seq<Code>, cfa: nat, caller: seq<nat>) {
    && At(env, entry).Valid() && |entry.regs| <= 64 && env.bits == 8 * abi.width
    && abi.sp < |entry.regs| && abi.fp < |entry.regs| && abi.ra < |entry.regs| && abi.sp != abi.fp && abi.sp != abi.ra
    && Proper(abi, code, |entry.regs|)
    && cfa == entry.regs[abi.sp] + Size(abi, Depth(abi, [])) < env.Word()
    && Size(abi, Depth(abi, code)) <= cfa && (env.bits == 32 ==> Size(abi, Depth(abi, code)) <= 0x8000_0000)
    && |caller| == |entry.regs|
    && (forall r :: 0 <= r < |caller| && r != abi.sp && !(abi.pushed && r == abi.ra) ==> caller[r] == entry.regs[r])
    && (abi.pushed ==> Saved(At(env, entry), entry.regs[abi.sp], caller[abi.ra]))
  }

  /** What holds after each instruction. */
  ghost predicate Inv(env: Env, abi: Abi, cie: Cie, code: seq<Code>, s: Callee, insns: seq<Insn>, cfa: nat,
                      caller: seq<nat>)
  {
    && At(env, s).Valid() && |s.regs| == |caller| && abi.sp < |s.regs| && abi.fp < |s.regs|
    && s.regs[abi.sp] + Size(abi, Depth(abi, code)) == cfa
    && AllSimple(insns) && BaseRegister(insns) == Some(if Framed(code) then abi.fp else abi.sp)
    && s.regs[BaseRegister(insns).value] + BaseOffset(cie, insns) == cfa && LastOn(insns, abi.sp).None?
    && forall r :: 0 <= r < |caller| && r != abi.sp ==> Kept(env, abi, code, s, insns, cfa, r, caller[r])
  }

  /** The register was saved in its slot, or still has its value and nothing was said of it. */
  ghost predicate Kept(env: Env, abi: Abi, code: seq<Code>, s: Callee, insns: seq<Insn>, cfa: nat, reg: nat,
                       v: nat)
    requires reg < |s.regs|
  {
    if WasSaved(abi, code, reg) then exists n: nat :: InSlot(env, abi, code, s, insns, cfa, reg, v, n)
    else v == s.regs[reg] && LastOn(insns, reg).None?
  }

  ghost predicate InSlot(env: Env, abi: Abi, code: seq<Code>, s: Callee, insns: seq<Insn>, cfa: nat, reg: nat, v: nat,
                         n: nat)
  {
    && 1 <= n <= Depth(abi, code) && Size(abi, n) <= cfa && LastOn(insns, reg) == Some(DefOffset(reg, n))
    && Saved(At(env, s), cfa - Size(abi, n), v)
  }

  /** An instruction has saved the register, or the call has. */
  ghost predicate WasSaved(abi: Abi, code: seq<Code>, reg: nat) {
    (abi.pushed && reg == abi.ra) || exists i :: 0 <= i < |code| && code[i].act == Save(reg)
  }

  lemma StoredBelow(env: Env, s: Callee, addr: nat, bytes: seq<Byte>, slot: nat, v: nat)
    requires Saved(At(env, s), slot, v) && addr + |bytes| <= slot
    ensures Saved(At(env, s.(ram := Stored(s.ram, addr, bytes))), slot, v)
  {
    hide Bits.Bytes;
    var word := Bits.Bytes(env.bits / 8, v);
    var ram := Stored(s.ram, addr, bytes);
    forall i | 0 <= i < |word|
      ensures ram(slot + i) == Some(word[i])
    {
      assert s.ram(slot + i) == Some(word[i]);
    }
  }

  lemma StoredHere(env: Env, s: Callee, addr: nat, v: nat)
    requires v < env.Word()
    ensures Saved(At(env, s.(ram := Stored(s.ram, addr, Bits.Bytes(env.bits / 8, v)))), addr, v)
  {
    hide Bits.Bytes;
    var word := Bits.Bytes(env.bits / 8, v);
    var ram := Stored(s.ram, addr, word);
    forall i | 0 <= i < |word|
      ensures ram(addr + i) == Some(word[i])
    {
    }
  }

  /** One more instruction at the end of a list. */
  lemma OneMore(cie: Cie, insns: seq<Insn>, insn: Insn)
    ensures var longer := insns + [insn];
            && BaseRegister(longer) == (match insn case DefCfa(reg, _) => Some(reg) case DefCfaSf(reg, _) => Some(reg)
                                        case DefCfaRegister(reg) => Some(reg) case _ => BaseRegister(insns))
            && (insn.DefCfa? || insn.DefCfaOffset? ==> BaseOffset(cie, longer) == insn.n)
            && (insn.DefOffset? || insn.DefCfaRegister? ==> BaseOffset(cie, longer) == BaseOffset(cie, insns))
            && (forall reg: nat ::
                  LastOn(longer, reg) == if Named(insn) == Some(reg) then Some(insn) else LastOn(insns, reg))
    ensures AllSimple(insns) && (insn.DefOffset? || insn.DefCfaOffset? || insn.DefCfaRegister?) && Simple(insn)
            && (if insn.DefOffset? then insn.reg != CFA_REG else BaseRegister(insns).Some?) ==>
              AllSimple(insns + [insn])
  {
    var longer := insns + [insn];
    assert longer[..|longer| - 1] == insns && longer[|longer| - 1] == insn;
  }

  lemma LastAct(abi: Abi, code: seq<Code>)
    requires code != []
    ensures var init, act := code[..|code| - 1], code[|code| - 1].act;
            && (Framed(code) <==> Framed(init) || act == SetFrame)
            && (forall reg :: WasSaved(abi, code, reg) <==> WasSaved(abi, init, reg) || act == Save(reg))
  {
    var init, n := code[..|code| - 1], |code| - 1;
    assert forall i :: 0 <= i < n ==> init[i] == code[i];
    forall reg
      ensures WasSaved(abi, code, reg) <==> WasSaved(abi, init, reg) || code[n].act == Save(reg)
    {
      if i :| 0 <= i < |code| && code[i].act == Save(reg) { assert i < n ==> init[i].act == Save(reg); }
      if i :| 0 <= i < n && init[i].act == Save(reg) { assert code[i].act == Save(reg); }
    }
    if i :| 0 <= i < |code| && code[i].act == SetFrame { assert i < n ==> init[i].act == SetFrame; }
    if i :| 0 <= i < n && init[i].act == SetFrame { assert code[i].act == SetFrame; }
  }

  /** The frame is deeper by so many slots. */
  lemma Deeper(abi: Abi, code: seq<Code>, s: Callee, cfa: nat)
    requires code != [] && abi.sp < |s.regs| && s.regs[abi.sp] + Size(abi, Depth(abi, code[..|code| - 1])) == cfa
    requires Size(abi, Depth(abi, code)) <= cfa
    ensures var s' := Moved(abi, s, SlotsOf(code[|code| - 1].act));
            s'.regs[abi.sp] + Size(abi, Depth(abi, code)) == cfa && s'.regs[abi.sp] <= s.regs[abi.sp]
  {
    hide Size, Depth, SlotsOf;
    DepthGrows(abi, code);
    SizeAdds(abi, Depth(abi, code[..|code| - 1]), SlotsOf(code[|code| - 1].act));
  }

  /** A slot stays as it is when the stack grows below it. */
  lemma SlotStays(env: Env, abi: Abi, code: seq<Code>, s: Callee, insns: seq<Insn>, cfa: nat, reg: nat, v: nat, n: nat,
                  s': Callee, code': seq<Code>, insns': seq<Insn>)
    requires InSlot(env, abi, code, s, insns, cfa, reg, v, n) && LastOn(insns', reg) == LastOn(insns, reg)
    requires Depth(abi, code) <= Depth(abi, code')
    requires s'.ram == s.ram || exists addr: nat, bytes ::
               s'.ram == Stored(s.ram, addr, bytes) && addr + |bytes| + Size(abi, Depth(abi, code)) <= cfa
    ensures InSlot(env, abi, code', s', insns', cfa, reg, v, n)
  {
    hide Saved, Size;
    var slot := cfa - Size(abi, n);
    SizeAdds(abi, n, Depth(abi, code) - n);
    if s'.ram == s.ram {
      SavedByRam(env, s, s', slot, v);
    } else {
      var addr: nat, bytes :| s'.ram == Stored(s.ram, addr, bytes)
          && addr + |bytes| + Size(abi, Depth(abi, code)) <= cfa;
      StoredBelow(env, s, addr, bytes, slot, v);
      SavedByRam(env, s.(ram := Stored(s.ram, addr, bytes)), s', slot, v);
    }
  }

  lemma SavedByRam(env: Env, s: Callee, s': Callee, slot: nat, v: nat)
    requires Saved(At(env, s), slot, v) && s'.ram == s.ram
    ensures Saved(At(env, s'), slot, v)
  {
  }

  /** What is saved stays saved, and what is not keeps its value, unless this act saves it. */
  lemma KeptOn(env: Env, abi: Abi, code: seq<Code>, s: Callee, insns: seq<Insn>, cfa: nat, reg: nat, v: nat,
               s': Callee, insns': seq<Insn>)
    requires code != [] && reg < |s.regs| == |s'.regs| && code[|code| - 1].act != Save(reg)
    requires Kept(env, abi, code[..|code| - 1], s, insns, cfa, reg, v) && LastOn(insns', reg) == LastOn(insns, reg)
    requires WasSaved(abi, code, reg) || s'.regs[reg] == s.regs[reg]
    requires s'.ram == s.ram || exists addr: nat, bytes ::
               s'.ram == Stored(s.ram, addr, bytes) && addr + |bytes| + Size(abi, Depth(abi, code[..|code| - 1])) <= cfa
    ensures Kept(env, abi, code, s', insns', cfa, reg, v)
  {
    hide Size, LastOn, Depth, InSlot, WasSaved, SlotsOf;
    LastAct(abi, code);
    DepthGrows(abi, code);
    var init := code[..|code| - 1];
    if WasSaved(abi, init, reg) {
      var n: nat :| InSlot(env, abi, init, s, insns, cfa, reg, v, n);
      SlotStays(env, abi, init, s, insns, cfa, reg, v, n, s', code, insns');
    }
  }

  /** The directive of the last act that moves the frame address, if any. */
  lemma OffsetDirective(env: Env, abi: Abi, cie: Cie, code: seq<Code>, s: Callee, insns: seq<Insn>, cfa: nat,
                        caller: seq<nat>) returns (insns': seq<Insn>)
    requires code != [] && Inv(env, abi, cie, code[..|code| - 1], s, insns, cfa, caller) && abi.sp != abi.fp
    requires Size(abi, Depth(abi, code)) <= cfa < env.Word() <= TWO_64 && !code[|code| - 1].act.SetFrame?
    ensures insns' == insns + if Framed(code[..|code| - 1]) then [] else [DefCfaOffset(Size(abi, Depth(abi, code)))]
    ensures var s' := Moved(abi, s, SlotsOf(code[|code| - 1].act));
            && s'.regs[abi.sp] + Size(abi, Depth(abi, code)) == cfa && s'.regs[abi.sp] <= s.regs[abi.sp]
            && AllSimple(insns') && BaseRegister(insns') == Some(if Framed(code) then abi.fp else abi.sp)
            && s'.regs[BaseRegister(insns').value] + BaseOffset(cie, insns') == cfa
            && forall reg: nat :: reg != CFA_REG ==> LastOn(insns', reg) == LastOn(insns, reg)
  {
    hide Size, AllSimple, BaseRegister, BaseOffset, LastOn, Kept, Depth, SlotsOf, Framed;
    LastAct(abi, code);
    Deeper(abi, code, s, cfa);
    if Framed(code[..|code| - 1]) {
      assert insns + [] == insns;
      insns' := insns;
    } else {
      var insn := DefCfaOffset(Size(abi, Depth(abi, code)));
      insns' := insns + [insn];
      OneMore(cie, insns, insn);
    }
  }

  lemma AllocateStep(env: Env, abi: Abi, cie: Cie, code: seq<Code>, s: Callee, insns: seq<Insn>, cfa: nat,
                     caller: seq<nat>)
    requires code != [] && Inv(env, abi, cie, code[..|code| - 1], s, insns, cfa, caller) && abi.sp != abi.fp
    requires Size(abi, Depth(abi, code)) <= cfa < env.Word() <= TWO_64 && code[|code| - 1].act.Allocate?
    requires |caller| <= 64
    ensures Inv(env, abi, cie, code, Done(abi, s, code[|code| - 1].act), insns + Directives(abi, code), cfa, caller)
  {
    hide Size, AllSimple, BaseRegister, BaseOffset, LastOn, Depth, Framed, Kept, SlotsOf;
    var init := code[..|code| - 1];
    var s' := Done(abi, s, code[|code| - 1].act);
    var insns' := OffsetDirective(env, abi, cie, code, s, insns, cfa, caller);
    forall r | 0 <= r < |caller| && r != abi.sp
      ensures Kept(env, abi, code, s', insns', cfa, r, caller[r])
    {
      assert Kept(env, abi, init, s, insns, cfa, r, caller[r]);
      KeptOn(env, abi, code, s, insns, cfa, r, caller[r], s', insns');
    }
    assert SlotsOf(code[|code| - 1].act) == code[|code| - 1].act.slots by { SlotsAre(code[|code| - 1].act); }
  }

  lemma SlotsAre(act: Act)
    ensures SlotsOf(act) == match act case Save(_) => 1 case Allocate(slots) => slots case SetFrame => 0
  {
  }

  lemma DepthGrows(abi: Abi, code: seq<Code>)
    requires code != []
    ensures Depth(abi, code) == Depth(abi, code[..|code| - 1]) + SlotsOf(code[|code| - 1].act)
  {
  }

  lemma SaveStep(env: Env, abi: Abi, cie: Cie, code: seq<Code>, s: Callee, insns: seq<Insn>, cfa: nat, caller: seq<nat>)
    requires code != [] && Inv(env, abi, cie, code[..|code| - 1], s, insns, cfa, caller) && abi.sp != abi.fp
    requires Size(abi, Depth(abi, code)) <= cfa < env.Word() <= TWO_64 && code[|code| - 1].act.Save?
    requires |caller| <= 64 && env.bits == 8 * abi.width && Proper(abi, code, |caller|)
    ensures Inv(env, abi, cie, code, Done(abi, s, code[|code| - 1].act), insns + Directives(abi, code), cfa, caller)
  {
    hide Size, AllSimple, BaseRegister, BaseOffset, LastOn, Depth, Framed, Kept, Saved, Bits.Bytes, SlotsOf, WasSaved,
         Savable;
    var init, reg := code[..|code| - 1], code[|code| - 1].act.reg;
    SlotsAre(code[|code| - 1].act);
    SavesOnce(abi, code, |caller|);
    var s' := Done(abi, s, code[|code| - 1].act);
    var mid := OffsetDirective(env, abi, cie, code, s, insns, cfa, caller);
    var last := DefOffset(reg, Depth(abi, code));
    var insns' := mid + [last];
    assert insns + Directives(abi, code) == insns';
    OneMore(cie, mid, last);
    SavedNow(env, abi, code, s, insns, insns', cfa, caller);
    forall r | 0 <= r < |caller| && r != abi.sp
      ensures Kept(env, abi, code, s', insns', cfa, r, caller[r])
    {
      assert Kept(env, abi, init, s, insns, cfa, r, caller[r]);
      if r != reg { KeptOn(env, abi, code, s, insns, cfa, r, caller[r], s', insns'); }
    }
  }

  lemma SavesOnce(abi: Abi, code: seq<Code>, count: nat)
    requires code != [] && code[|code| - 1].act.Save? && Proper(abi, code, count)
    ensures var reg := code[|code| - 1].act.reg;
            reg < count && reg != abi.sp && !WasSaved(abi, code[..|code| - 1], reg) && WasSaved(abi, code, reg)
  {
    assert Savable(abi, code, |code| - 1, count);
    var init := code[..|code| - 1];
    assert forall i :: 0 <= i < |init| ==> init[i] == code[i];
  }

  /** The register is now in the lowest slot, and all other slots lie above it. */
  lemma SavedNow(env: Env, abi: Abi, code: seq<Code>, s: Callee, insns: seq<Insn>, insns': seq<Insn>, cfa: nat,
                 caller: seq<nat>)
    requires code != [] && code[|code| - 1].act.Save? && code[|code| - 1].act.reg < |s.regs| == |caller|
    requires abi.sp < |s.regs| && abi.fp < |s.regs| && At(env, s).Valid() && env.bits == 8 * abi.width
    requires var reg, init := code[|code| - 1].act.reg, code[..|code| - 1];
             && Kept(env, abi, init, s, insns, cfa, reg, caller[reg]) && !WasSaved(abi, init, reg)
             && WasSaved(abi, code, reg) && LastOn(insns', reg) == Some(DefOffset(reg, Depth(abi, code)))
    requires Done(abi, s, code[|code| - 1].act).regs[abi.sp] + Size(abi, Depth(abi, code)) == cfa
    ensures var reg, s' := code[|code| - 1].act.reg, Done(abi, s, code[|code| - 1].act);
            && Kept(env, abi, code, s', insns', cfa, reg, caller[reg])
            && exists addr: nat, bytes :: s'.ram == Stored(s.ram, addr, bytes)
                                          && addr + |bytes| + Size(abi, Depth(abi, code[..|code| - 1])) <= cfa
  {
    hide Size, LastOn, Depth, Saved, Bits.Bytes, SlotsOf, WasSaved, InSlot;
    var init, reg := code[..|code| - 1], code[|code| - 1].act.reg;
    var s' := Done(abi, s, code[|code| - 1].act);
    DepthGrows(abi, code);
    SlotsAre(code[|code| - 1].act);
    var sp, bytes := s'.regs[abi.sp], Bits.Bytes(abi.width, s.regs[reg]);
    BytesLength(abi.width, s.regs[reg]);
    StoredHere(env, s.(regs := s'.regs), sp, s.regs[reg]);
    assert s' == Callee(s'.regs, Stored(s.ram, sp, bytes));
    Below(abi, sp, Depth(abi, init), cfa);
    InSlotNow(env, abi, code, s', insns', cfa, reg, caller[reg]);
  }

  lemma InSlotNow(env: Env, abi: Abi, code: seq<Code>, s: Callee, insns: seq<Insn>, cfa: nat, reg: nat, v: nat)
    requires abi.sp < |s.regs| && s.regs[abi.sp] + Size(abi, Depth(abi, code)) == cfa && Depth(abi, code) >= 1
    requires LastOn(insns, reg) == Some(DefOffset(reg, Depth(abi, code))) && Saved(At(env, s), s.regs[abi.sp], v)
    ensures InSlot(env, abi, code, s, insns, cfa, reg, v, Depth(abi, code))
  {
    hide Saved;
  }

  lemma Below(abi: Abi, sp: nat, d: nat, cfa: nat)
    requires sp + Size(abi, d + 1) == cfa
    ensures sp + abi.width + Size(abi, d) <= cfa
  {
    SizeAdds(abi, d, 1);
  }

  lemma FrameStep(env: Env, abi: Abi, cie: Cie, code: seq<Code>, s: Callee, insns: seq<Insn>, cfa: nat,
                  caller: seq<nat>)
    requires code != [] && Inv(env, abi, cie, code[..|code| - 1], s, insns, cfa, caller) && abi.sp != abi.fp
    requires code[|code| - 1].act.SetFrame? && |caller| <= 64 && Proper(abi, code, |caller|)
    ensures Inv(env, abi, cie, code, Done(abi, s, code[|code| - 1].act), insns + Directives(abi, code), cfa, caller)
  {
    hide Size, AllSimple, BaseRegister, BaseOffset, LastOn, Depth, Framed, Kept, SlotsOf, WasSaved, Savable;
    var init := code[..|code| - 1];
    var s' := Done(abi, s, SetFrame);
    LastAct(abi, code);
    DepthGrows(abi, code);
    SlotsAre(SetFrame);
    FrameSaved(abi, code, |caller|);
    var insns' := insns + [DefCfaRegister(abi.fp)];
    OneMore(cie, insns, DefCfaRegister(abi.fp));
    forall r | 0 <= r < |caller| && r != abi.sp
      ensures Kept(env, abi, code, s', insns', cfa, r, caller[r])
    {
      assert Kept(env, abi, init, s, insns, cfa, r, caller[r]);
      KeptOn(env, abi, code, s, insns, cfa, r, caller[r], s', insns');
    }
  }

  lemma FrameSaved(abi: Abi, code: seq<Code>, count: nat)
    requires code != [] && code[|code| - 1].act.SetFrame? && Proper(abi, code, count)
    ensures !Framed(code[..|code| - 1]) && WasSaved(abi, code[..|code| - 1], abi.fp)
  {
    var n := |code| - 1;
    var j :| 0 <= j < n && code[j].act == Save(abi.fp);
    assert code[..n][j].act == Save(abi.fp);
    assert code[n].act == SetFrame;
  }

  lemma EntryInv(env: Env, abi: Abi, cie: Cie, entry: Callee, code: seq<Code>, cfa: nat, caller: seq<nat>)
    requires Called(env, abi, entry, code, cfa, caller) && env.Word() <= TWO_64
    ensures Inv(env, abi, cie, [], entry, CieInsns(abi), cfa, caller)
  {
    hide Size, Proper, AllSimple, BaseRegister, BaseOffset, LastOn, Env.Word, Saved;
    SizeAdds(abi, 0, 1);
    var base := DefCfa(abi.sp, Size(abi, Depth(abi, [])));
    StartsSimple(cie, base);
    if abi.pushed {
      assert CieInsns(abi) == [base] + [DefOffset(abi.ra, 1)];
      OneMore(cie, [base], DefOffset(abi.ra, 1));
      SavedByRam(env, entry, entry, entry.regs[abi.sp], caller[abi.ra]);
      assert InSlot(env, abi, [], entry, CieInsns(abi), cfa, abi.ra, caller[abi.ra], 1);
    } else {
      assert CieInsns(abi) == [base];
    }
  }

  lemma StartsSimple(cie: Cie, base: Insn)
    requires base.DefCfa? && base.n < TWO_64
    ensures AllSimple([base]) && BaseRegister([base]) == Some(base.reg) && BaseOffset(cie, [base]) == base.n
    ensures forall reg: nat :: reg != CFA_REG ==> LastOn([base], reg).None?
  {
    assert [base][..0] == [];
  }

  lemma {:induction false} Shallower(abi: Abi, code: seq<Code>, k: nat)
    requires k <= |code|
    ensures Size(abi, Depth(abi, code[..k])) <= Size(abi, Depth(abi, code))
    decreases |code| - k
  {
    hide Size, SlotsOf;
    if k < |code| {
      Shallower(abi, code, k + 1);
      assert code[..k + 1][..k] == code[..k];
      SizeAdds(abi, Depth(abi, code[..k]), SlotsOf(code[k].act));
    } else {
      assert code[..k] == code;
    }
  }

  lemma ProperPrefix(abi: Abi, code: seq<Code>, k: nat, count: nat)
    requires k <= |code| && Proper(abi, code, count)
    ensures Proper(abi, code[..k], count)
  {
    var init := code[..k];
    assert forall i :: 0 <= i < k ==> init[i] == code[i];
    forall i | 0 <= i < k && init[i].act.Save?
      ensures Savable(abi, init, i, count)
    {
      assert Savable(abi, code, i, count);
    }
    forall i | 0 <= i < k && init[i].act == SetFrame
      ensures !Framed(init[..i]) && exists j :: 0 <= j < i && init[j].act == Save(abi.fp)
    {
      assert init[..i] == code[..i] && code[i].act == SetFrame;
      var j :| 0 <= j < i && code[j].act == Save(abi.fp);
      assert init[j].act == Save(abi.fp);
    }
  }

  /** The invariant holds after each of the instructions. */
  lemma {:induction false} AlwaysInv(env: Env, abi: Abi, cie: Cie, entry: Callee, code: seq<Code>, cfa: nat,
                                     caller: seq<nat>, k: nat)
    requires Called(env, abi, entry, code, cfa, caller) && env.Word() <= TWO_64 && k <= |code|
    ensures Inv(env, abi, cie, code[..k], After(abi, entry, code[..k]), CieInsns(abi) + AllDirectives(abi, code[..k]),
                cfa, caller)
    decreases k
  {
    hide Size, Proper, Inv, Depth, Directives, Env.Word, Saved, Done;
    if k == 0 {
      EntryInv(env, abi, cie, entry, code, cfa, caller);
      assert code[..0] == [] && CieInsns(abi) + [] == CieInsns(abi);
    } else {
      AlwaysInv(env, abi, cie, entry, code, cfa, caller, k - 1);
      var some := code[..k];
      assert some[..k - 1] == code[..k - 1] && some[k - 1] == code[k - 1];
      Shallower(abi, code, k);
      ProperPrefix(abi, code, k, |caller|);
      var s, insns := After(abi, entry, code[..k - 1]), CieInsns(abi) + AllDirectives(abi, code[..k - 1]);
      assert CieInsns(abi) + AllDirectives(abi, some) == insns + Directives(abi, some);
      match code[k - 1].act
      case Save(_) => SaveStep(env, abi, cie, some, s, insns, cfa, caller);
      case Allocate(_) => AllocateStep(env, abi, cie, some, s, insns, cfa, caller);
      case SetFrame => FrameStep(env, abi, cie, some, s, insns, cfa, caller);
    }
  }

  /** The caller's registers, with the stack pointer as it is. */
  function Registers(abi: Abi, s: Callee, caller: seq<nat>): seq<nat>
    requires abi.sp < |s.regs| && abi.sp < |caller|
  {
    caller[abi.sp := s.regs[abi.sp]]
  }

  lemma InvDescribes(m: Machine, env: Env, abi: Abi, cie: Cie, code: seq<Code>, s: Callee, insns: seq<Insn>, cfa: nat,
                     caller: seq<nat>)
    requires Inv(env, abi, cie, code, s, insns, cfa, caller) && |caller| <= 64 && m.Valid() && m.modulus == env.Word()
    requires cie.data_factor == 0 - abi.width && cfa < env.Word()
    requires m.modulus == TWO_64 || Size(abi, Depth(abi, code)) <= 0x8000_0000
    ensures Describes(m, At(env, s), cie, insns, cfa, Registers(abi, s, caller))
    ensures abi.ra < |caller| && abi.ra != abi.sp ==> !IsUndefined(insns, abi.ra)
  {
    hide AllSimple, BaseRegister, BaseOffset, LastOn, Saved, Depth, WasSaved, Size, Pow2, Env.Valid;
    RemainderIs(cfa, env.Word(), 0, cfa);
    var values := Registers(abi, s, caller);
    forall r | 0 <= r < |values|
      ensures SavedAs(m, At(env, s), cie, LastOn(insns, r), cfa, r, values[r])
    {
      if r != abi.sp {
        assert Kept(env, abi, code, s, insns, cfa, r, caller[r]);
        if WasSaved(abi, code, r) {
          var n: nat :| InSlot(env, abi, code, s, insns, cfa, r, caller[r], n);
          SlotProvided(m, env, abi, cie, code, s, insns, cfa, r, caller[r], n);
        }
      }
    }
    if abi.ra < |caller| && abi.ra != abi.sp {
      assert Kept(env, abi, code, s, insns, cfa, abi.ra, caller[abi.ra]);
    }
  }

  lemma SlotProvided(m: Machine, env: Env, abi: Abi, cie: Cie, code: seq<Code>, s: Callee, insns: seq<Insn>, cfa: nat,
                     reg: nat, v: nat, n: nat)
    requires InSlot(env, abi, code, s, insns, cfa, reg, v, n) && m.Valid() && m.modulus == env.Word()
    requires cie.data_factor == 0 - abi.width && cfa < env.Word()
    requires m.modulus == TWO_64 || Size(abi, Depth(abi, code)) <= 0x8000_0000
    ensures Provided(m, At(env, s), cie, DefOffset(reg, n), cfa, v)
  {
    hide Saved, Depth, LastOn, Env.Word;
    var d := n * cie.data_factor;
    assert d == 0 - Size(abi, n);
    SizeAdds(abi, n, Depth(abi, code) - n);
    hide Size;
    RemainderIs(cfa + d, TWO_64, 0, cfa + d);
    if m.modulus != TWO_64 { RemainderIs(d + TWO_64 / 2, TWO_64, 0, d + TWO_64 / 2); }
  }

  // ----- the table

  /** The length of the code. */
  function Length(code: seq<Code>): nat {
    if code == [] then 0 else Length(code[..|code| - 1]) + code[|code| - 1].length
  }

  /** Where the code after the first `k` instructions starts. */
  function Location(fde: Fde, code: seq<Code>, k: nat): nat
    requires k <= |code|
  {
    fde.pc_start + Length(code[..k]) * fde.cie.code_factor
  }

  lemma NextLocation(fde: Fde, code: seq<Code>, k: nat)
    requires k < |code|
    ensures Location(fde, code, k + 1) == Location(fde, code, k) + code[k].length * fde.cie.code_factor
  {
    assert code[..k + 1][..k] == code[..k];
    Distributes(Length(code[..k]), code[k].length, fde.cie.code_factor);
  }

  lemma {:induction false} LocationGrows(fde: Fde, code: seq<Code>, k: nat)
    requires k <= |code|
    ensures Location(fde, code, k) <= Location(fde, code, |code|)
    decreases |code| - k
  {
    hide Location;
    if k < |code| {
      LocationGrows(fde, code, k + 1);
      NextLocation(fde, code, k);
    }
  }

  lemma {:induction false} LinesInOrder(fde: Fde, abi: Abi, code: seq<Code>, k: nat, limit: nat)
    requires k <= |code| && Location(fde, code, |code|) < limit
    ensures InOrder(fde.cie.code_factor, Location(fde, code, k), Lines(abi, code)[k..], limit)
    decreases |code| - k
  {
    hide Location, Directives;
    if k < |code| {
      var rest := Lines(abi, code)[k..];
      assert rest[0] == Lines(abi, code)[k] && rest[1..] == Lines(abi, code)[k + 1..];
      LinesInOrder(fde, abi, code, k + 1, limit);
      NextLocation(fde, code, k);
      LocationGrows(fde, code, k + 1);
      DirectivesStill(abi, code[..k + 1]);
    }
  }

  lemma DirectivesStill(abi: Abi, code: seq<Code>)
    requires code != []
    ensures AllStill(Directives(abi, code))
  {
  }

  /** After `k` instructions the changes up to the pc are their directives. */
  lemma {:induction false} ChangesAre(fde: Fde, abi: Abi, code: seq<Code>, i: nat, k: nat, pc: nat)
    requires i <= k <= |code| && Location(fde, code, k) <= pc && (k < |code| ==> pc < Location(fde, code, k + 1))
    ensures AllDirectives(abi, code[..i])
            + ChangesUpTo(fde.cie.code_factor, Location(fde, code, i), Lines(abi, code)[i..], pc)
            == AllDirectives(abi, code[..k])
    decreases k - i
  {
    hide Location, Directives;
    var rest := Lines(abi, code)[i..];
    if i < |code| {
      assert rest[0] == Lines(abi, code)[i] && rest[1..] == Lines(abi, code)[i + 1..];
      NextLocation(fde, code, i);
    }
    if i < k {
      ChangesAre(fde, abi, code, i + 1, k, pc);
      UpTo(fde, code, i + 1, k);
      assert code[..i + 1][..i] == code[..i];
    } else {
      assert ChangesUpTo(fde.cie.code_factor, Location(fde, code, i), rest, pc) == [];
    }
  }

  lemma {:induction false} UpTo(fde: Fde, code: seq<Code>, i: nat, k: nat)
    requires i <= k <= |code|
    ensures Location(fde, code, i) <= Location(fde, code, k)
    decreases k - i
  {
    hide Location;
    if i < k {
      UpTo(fde, code, i + 1, k);
      NextLocation(fde, code, i);
    }
  }

  /** The unwind information that a compiler writes for the prologue. */
  ghost predicate Compiled(m: Machine, abi: Abi, fde: Fde, code: seq<Code>) {
    && fde.cie.data_factor == 0 - abi.width && fde.cie.insns == CieInsns(abi) && fde.insns == Insns(Lines(abi, code))
    && Location(fde, code, |code|) < m.modulus
  }

  lemma IsCompiled(m: Machine, env: Env, abi: Abi, fde: Fde, entry: Callee, code: seq<Code>, k: nat, pc: nat, cfa: nat,
                   caller: seq<nat>)
    requires m.Valid() && m.modulus == env.Word() && Called(env, abi, entry, code, cfa, caller)
    requires Compiled(m, abi, fde, code) && k <= |code|
    requires Location(fde, code, k) <= pc && (k < |code| ==> pc < Location(fde, code, k + 1))
    ensures var s := After(abi, entry, code[..k]);
            && SameMachine(m, At(env, s)) && IsTable(m, fde, [], Lines(abi, code)) && fde.pc_start <= pc
            && Describes(m, At(env, s), fde.cie, InsnsAt(fde, [], Lines(abi, code), pc), cfa, Registers(abi, s, caller))
    ensures !IsUndefined(InsnsAt(fde, [], Lines(abi, code), pc), abi.ra)
  {
    hide Lines, Insns, AllDirectives, Inv, Describes, Proper, Saved, Pow2, Depth, Size, ChangesUpTo, Length, LastOn;
    AlwaysInv(env, abi, fde.cie, entry, code, cfa, caller, k);
    TableIs(m, abi, fde, code, k, pc);
    Shallower(abi, code, k);
    var s := After(abi, entry, code[..k]);
    WidthIs(m, env, entry);
    InvValid(env, abi, fde.cie, code[..k], s, CieInsns(abi) + AllDirectives(abi, code[..k]), cfa, caller);
    InvDescribes(m, env, abi, fde.cie, code[..k], s, CieInsns(abi) + AllDirectives(abi, code[..k]), cfa, caller);
  }

  lemma WidthIs(m: Machine, env: Env, entry: Callee)
    requires m.Valid() && m.modulus == env.Word() && At(env, entry).Valid()
    ensures env.Word() <= TWO_64 && (m.modulus != TWO_64 ==> env.bits == 32)
  {
    hide Pow2;
    Pow2Known();
  }

  lemma InvValid(env: Env, abi: Abi, cie: Cie, code: seq<Code>, s: Callee, insns: seq<Insn>, cfa: nat, caller: seq<nat>)
    requires Inv(env, abi, cie, code, s, insns, cfa, caller)
    ensures At(env, s).Valid()
  {
  }

  lemma TableIs(m: Machine, abi: Abi, fde: Fde, code: seq<Code>, k: nat, pc: nat)
    requires Compiled(m, abi, fde, code) && k <= |code|
    requires Location(fde, code, k) <= pc && (k < |code| ==> pc < Location(fde, code, k + 1))
    ensures IsTable(m, fde, [], Lines(abi, code)) && fde.pc_start <= pc
    ensures InsnsAt(fde, [], Lines(abi, code), pc) == CieInsns(abi) + AllDirectives(abi, code[..k])
  {
    hide Insns, Directives, ChangesUpTo;
    var lines := Lines(abi, code);
    assert lines[0..] == lines && code[..0] == [] && [] + Insns(lines) == Insns(lines);
    assert Location(fde, code, 0) == fde.pc_start;
    LinesInOrder(fde, abi, code, 0, m.modulus);
    ChangesAre(fde, abi, code, 0, k, pc);
    var changes := ChangesUpTo(fde.cie.code_factor, fde.pc_start, lines, pc);
    assert AllDirectives(abi, code[..0]) + changes == changes && [] + changes == changes;
  }

  /**
   Whatever a function saves, wherever it is in its prologue or after it, a step up
   the stack gives its caller every register back.
   */
  method StepOut(m: Machine, section: Env, fde: Fde, pc: nat, is_signal_frame: bool, regs: Eval.Regs, ghost abi: Abi,
                 ra: nat, ghost entry: Callee, ghost code: seq<Code>, ghost k: nat, ghost cfa: nat,
                 ghost caller: seq<nat>)
    returns (error: Option<Error>, finished: bool)
    requires m.Valid() && m.modulus == section.Word() && Called(section, abi, entry, code, cfa, caller) && abi.ra == ra
    requires Compiled(m, abi, fde, code) && k <= |code|
    requires Location(fde, code, k) <= pc && (k < |code| ==> pc < Location(fde, code, k + 1))
    requires var s := After(abi, entry, code[..k]); regs.Valid() && regs.values == s.regs && section.ram == s.ram
    requires regs.sp_reg == abi.sp
    modifies regs
    ensures error.None? && |regs.values| == |caller| && regs.values[abi.sp] == cfa
    ensures forall r :: 0 <= r < |caller| && r != abi.sp && r != regs.pc_reg ==> regs.values[r] == caller[r]
    ensures regs.pc_reg < |caller| && regs.values[regs.pc_reg] == regs.adjust_pc(caller[abi.ra], regs.pseudo)
  {
    hide Called, Compiled, Describes, IsTable, InsnsAt, Location, IsUndefined;
    CalledFits(section, abi, entry, code, cfa, caller);
    ghost var s := After(abi, entry, code[..k]);
    IsCompiled(m, section, abi, fde, entry, code, k, pc, cfa, caller);
    assert section.(regs := regs.values) == At(section, s);
    error, finished := StepUp(m, section, fde, pc, ra, is_signal_frame, regs, [], Lines(abi, code), cfa,
                              Registers(abi, s, caller));
  }

  lemma CalledFits(env: Env, abi: Abi, entry: Callee, code: seq<Code>, cfa: nat, caller: seq<nat>)
    requires Called(env, abi, entry, code, cfa, caller)
    ensures abi.sp < |caller| == |entry.regs| && abi.fp < |entry.regs| && abi.ra < |caller| && abi.ra != abi.sp
  {
  }
}
