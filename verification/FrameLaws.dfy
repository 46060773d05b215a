/**
 What call frame instructions say of the caller: where its frame address is, and
 what each register restores to, in terms of the callee's registers and memory.
 */
module FrameLaws {
  import opened Bits
  import opened Cfi = CallFrameLaws
  import opened DwarfCfa
  import opened DwarfMemory
  import opened Laws = DwarfOpLaws
  import opened Ops = DwarfOp
  import opened OrderedKeys
  import Eval = RegisterEval
  import Trees = ExpressionTrees
  import opened TreeValues
  import opened WordSizes

  /** The interpreter of instructions and the evaluation of registers use the same addresses. */
  predicate SameMachine(m: Machine, env: Env) {
    m.Valid() && env.Valid() && m.modulus == env.Word()
  }

  // ----- operands

  /** The signed operand that was read as an unsigned one. */
  function Operand64(n: nat): int {
    if n < 0x8000_0000_0000_0000 then n else n - TWO_64
  }

  /** The signed number of 64 bits with the same remainder. */
  function Signed64(d: int): int {
    (d + TWO_64 / 2) % TWO_64 - TWO_64 / 2
  }

  /** A machine of 32 bits records only offsets of 32 bits. */
  predicate Recordable(m: Machine, d: int) {
    m.modulus == TWO_64 || -0x8000_0000 <= Signed64(d) < 0x8000_0000
  }

  lemma SignedIsOne(m: Machine, d: int, s: int)
    requires m.Valid() && 0 - m.modulus / 2 <= s < m.modulus / 2 && s % m.modulus == d % m.modulus
    ensures m.Signed(d) == s
  {
    if s < 0 { RemainderIs(s, m.modulus, -1, s + m.modulus); } else { RemainderIs(s, m.modulus, 0, s); }
  }

  lemma SignedInRange(m: Machine, n: int)
    requires m.Valid()
    ensures 0 - m.modulus / 2 <= m.Signed(n) < m.modulus / 2
  {
    var q, r := Divides(n, m.modulus);
  }

  /** What is recorded of an operand is its multiple, as 64 bits, if and only if that is recordable. */
  lemma ScaledExactly(m: Machine, n: int, i: int, factor: int)
    requires m.Valid() && n % TWO_64 == i % TWO_64
    ensures m.Scaled(n, factor) % m.modulus == (i * factor) % m.modulus
    ensures m.Scaled(n, factor) == (i * factor) % TWO_64 <==> Recordable(m, i * factor)
  {
    var d := i * factor;
    var s := m.Signed(m.Signed(n) * factor);
    assert s % m.modulus == d % m.modulus by { ProductCongruent(m, n, i, factor); }
    WordOf64(m, s);
    SignedInRange(m, m.Signed(n) * factor);
    HalfTurn(d, TWO_64);
    HalfTurn(s, TWO_64);
    WordOf64(m, Signed64(d));
    WordOf64(m, d);
    RemainderIs(s, TWO_64, if s < 0 then -1 else 0, if s < 0 then s + TWO_64 else s);
    if Recordable(m, d) { SignedIsOne(m, d, Signed64(d)); SignedIsOne(m, d, s); }
  }

  lemma ProductCongruent(m: Machine, n: int, i: int, factor: int)
    requires m.Valid() && n % TWO_64 == i % TWO_64
    ensures m.Signed(m.Signed(n) * factor) % m.modulus == (i * factor) % m.modulus
  {
    SignedIsCongruent(m, m.Signed(n) * factor);
    SignedIsCongruent(m, n);
    WordOf64(m, n);
    WordOf64(m, i);
    ModTimes(m.Signed(n), factor, m.modulus);
    ModTimes(i, factor, m.modulus);
  }

  lemma OperandIs(n: nat)
    requires n < TWO_64
    ensures Operand64(n) % TWO_64 == n % TWO_64
  {
    SameMod(Operand64(n), n, if n < TWO_64 / 2 then 0 else -1, TWO_64);
  }

  // ----- what is saved where

  /** The word stands in memory. */
  ghost predicate Saved(env: Env, addr: nat, v: nat) {
    v < env.Word() && InRam(env.ram, addr, Bits.Bytes(env.bits / 8, v))
  }

  lemma SavedIsRead(env: Env, addr: nat, v: nat)
    requires env.Valid() && Saved(env, addr, v)
    ensures Eval.ReadWord(env.ram, env.bits, addr) == Ok(v)
  {
    hide Pow2, Bits.Bytes, ReadRam, ValueOf;
    assert env.Word() == Pow2(8 * (env.bits / 8));
    BytesAre(env.bits / 8, v);
    RamReads(env.ram, addr, Bits.Bytes(env.bits / 8, v));
    RemainderIs(v, env.Word(), 0, v);
  }

  lemma {:induction false} NotRead(ram: nat -> Option<Byte>, addr: nat, size: nat, k: nat)
    requires k < size && ram(addr + k).None?
    ensures ReadRam(ram, addr, size).None?
    decreases size
  {
    if k > 0 {
      assert addr + k == addr + 1 + (k - 1);
      NotRead(ram, addr + 1, size - 1, k - 1);
    }
  }

  /** If a byte of the word cannot be read, reading it fails. */
  lemma UnreadableFails(env: Env, addr: nat, k: nat)
    requires k < env.bits / 8 && env.ram(addr + k).None?
    ensures Eval.ReadWord(env.ram, env.bits, addr) == Fail(MemoryInvalid)
  {
    hide ReadRam;
    NotRead(env.ram, addr, env.bits / 8, k);
  }

  /** The expression of `length` bytes before `end` is that of a tree with this value. */
  ghost predicate Computes(env: Env, length: nat, end: nat, a: int) {
    exists t :: ComputesBy(env, length, end, a, t)
  }

  ghost predicate ComputesBy(env: Env, length: nat, end: nat, a: int, t: Tree) {
    && WellFormed(env, t) && Steps(env, t) <= 1000 && Value(env, t) == Ok(a)
    && length == |Code(t)| <= end && Holds(env.code, end - length, Code(t))
  }

  lemma ExpressionGives(env: Env, loc: Location, a: int)
    requires env.Valid() && Computes(env, loc.v0, loc.v1, a)
    ensures Eval.ExpressionResult(env, loc) == Ok(Word(env, a))
  {
    hide Value, Steps, Code, Holds, WellFormed, Ops.Run, Word;
    var t :| ComputesBy(env, loc.v0, loc.v1, a, t);
    var start := loc.v1 - loc.v0;
    assert start + |Code(t)| < TWO_64 by { Trees.InSection(env, start, Code(t)); }
    RemainderIs(start, TWO_64, 0, start);
    Trees.ExpressionMeansTree(env, t, start);
  }

  // ----- the frame address

  /** The frame address in the registers of the callee. */
  function FrameAddress(env: Env, rules: Rules): Outcome<nat>
    requires env.Valid()
  {
    if CFA_REG in rules then Eval.CfaValue(env, rules[CFA_REG]) else Fail(CfaNotDefined)
  }

  /** The frame address is that of a register, and an offset from it. */
  predicate BasedOn(rules: Rules, reg: nat, offset: nat) {
    CFA_REG in rules && rules[CFA_REG] == Location(Register, reg, offset)
  }

  lemma BaseGives(env: Env, rules: Rules, reg: nat, offset: nat)
    requires env.Valid() && BasedOn(rules, reg, offset) && reg < |env.regs|
    ensures FrameAddress(env, rules) == Ok((env.regs[reg] + offset) % env.Word())
  {
  }

  /** An offset that was scaled is its multiple, wherever it is added. */
  lemma ScaledBase(m: Machine, env: Env, n: nat, factor: int, base: nat)
    requires SameMachine(m, env) && n < TWO_64
    ensures (base + m.Scaled(n, factor)) % env.Word() == (base + Operand64(n) * factor) % env.Word()
  {
    hide Env.Word, Machine.Scaled, Operand64;
    OperandIs(n);
    ScaledExactly(m, n, Operand64(n), factor);
    ModPlus(base, m.Scaled(n, factor), m.modulus);
    ModPlus(base, Operand64(n) * factor, m.modulus);
  }

  /** A register and an offset are set together. */
  lemma DefCfaLaw(m: Machine, env: Env, cie: Cie, cie_rules: Option<Rules>, st: State, reg: nat, n: nat)
    requires SameMachine(m, env) && reg < |env.regs| && n < TWO_64
    ensures var r := Exec(m, cie, cie_rules, DefCfa(reg, n), st);
            && r.Some? && FrameAddress(env, r.value.locs.rules) == Ok((env.regs[reg] + n) % env.Word())
            && BasedOn(r.value.locs.rules, reg, n)
    ensures var r := Exec(m, cie, cie_rules, DefCfaSf(reg, n), st);
            && r.Some?
            && FrameAddress(env, r.value.locs.rules) ==
               Ok((env.regs[reg] + Operand64(n) * cie.data_factor) % env.Word())
            && exists o :: BasedOn(r.value.locs.rules, reg, o)
  {
    hide Env.Word, Machine.Scaled, Operand64;
    ScaledBase(m, env, n, cie.data_factor, env.regs[reg]);
    var r := Exec(m, cie, cie_rules, DefCfaSf(reg, n), st);
    assert BasedOn(r.value.locs.rules, reg, m.Scaled(n, cie.data_factor));
  }

  /** The register changes and the offset stays. */
  lemma DefCfaRegisterLaw(m: Machine, env: Env, cie: Cie, cie_rules: Option<Rules>, st: State, base: nat, o: nat,
                          reg: nat)
    requires SameMachine(m, env) && BasedOn(st.locs.rules, base, o) && reg < |env.regs|
    ensures var r := Exec(m, cie, cie_rules, DefCfaRegister(reg), st);
            && r.Some? && FrameAddress(env, r.value.locs.rules) == Ok((env.regs[reg] + o) % env.Word())
            && BasedOn(r.value.locs.rules, reg, o)
  {
    hide Env.Word;
  }

  /** The offset changes and the register stays. */
  lemma DefCfaOffsetLaw(m: Machine, env: Env, cie: Cie, cie_rules: Option<Rules>, st: State, base: nat, o: nat, n: nat)
    requires SameMachine(m, env) && BasedOn(st.locs.rules, base, o) && base < |env.regs| && n < TWO_64
    ensures var r := Exec(m, cie, cie_rules, DefCfaOffset(n), st);
            && r.Some? && FrameAddress(env, r.value.locs.rules) == Ok((env.regs[base] + n) % env.Word())
            && BasedOn(r.value.locs.rules, base, n)
    ensures var r := Exec(m, cie, cie_rules, DefCfaOffsetSf(n), st);
            && r.Some?
            && FrameAddress(env, r.value.locs.rules) ==
               Ok((env.regs[base] + Operand64(n) * cie.data_factor) % env.Word())
            && exists o' :: BasedOn(r.value.locs.rules, base, o')
  {
    hide Env.Word, Machine.Scaled, Operand64;
    ScaledBase(m, env, n, cie.data_factor, env.regs[base]);
    var r := Exec(m, cie, cie_rules, DefCfaOffsetSf(n), st);
    assert BasedOn(r.value.locs.rules, base, m.Scaled(n, cie.data_factor));
  }

  /** Without a register to start from, neither can be changed alone. */
  lemma NoBaseLaw(m: Machine, cie: Cie, cie_rules: Option<Rules>, insn: Insn, st: State)
    requires m.Valid() && (insn.DefCfaRegister? || insn.DefCfaOffset? || insn.DefCfaOffsetSf?)
    ensures Exec(m, cie, cie_rules, insn, st).Some? <==> exists reg, o :: BasedOn(st.locs.rules, reg, o)
  {
    hide Machine.Scaled;
    if CfaRegister(st).Some? {
      assert BasedOn(st.locs.rules, CfaRegister(st).value.v0, CfaRegister(st).value.v1);
    }
  }

  /** The value of an expression is the frame address itself. */
  lemma DefCfaExpressionLaw(m: Machine, env: Env, cie: Cie, cie_rules: Option<Rules>, st: State, length: nat, end: nat,
                            a: int)
    requires SameMachine(m, env) && Computes(env, length, end, a)
    ensures var r := Exec(m, cie, cie_rules, DefCfaExpression(length, end), st);
            r.Some? && FrameAddress(env, r.value.locs.rules) == Ok(a % env.Word())
  {
    hide Computes, Env.Word, Eval.ExpressionResult, Machine.Scaled;
    ExpressionGives(env, Location(ValExpression, length, end), a);
  }

  // ----- what registers restore to

  /** The rule of a register works, and gives it this value. */
  predicate Gives(env: Env, cfa: nat, rules: Rules, reg: nat, v: nat)
    requires env.Valid()
  {
    && reg < |env.regs| && reg != CFA_REG
    && (reg in rules ==> Eval.RuleValue(env, cfa, rules[reg]).Ok?) && Eval.Restored(env, cfa, rules, reg) == v
  }

  /** The register was saved at an offset from the frame address. */
  lemma OffsetLaw(m: Machine, env: Env, cie: Cie, cie_rules: Option<Rules>, insn: Insn, st: State, cfa: nat, d: int,
                  v: nat)
    requires SameMachine(m, env) && Named(insn).Some? && Named(insn).value < |env.regs| <= 64
    requires match insn
             case DefOffset(_, n) => d == n * cie.data_factor
             case OffsetExtendedSf(_, n) => n < TWO_64 && d == Operand64(n) * cie.data_factor
             case NegativeOffsetExtended(_, n) => d == 0 - n
             case OffsetExtended(_, n) => d == n
             case _ => false
    requires Recordable(m, d) || insn.OffsetExtended?
    requires Saved(env, (cfa + d) % TWO_64, v)
    ensures var r := Exec(m, cie, cie_rules, insn, st);
            r.Some? && Gives(env, cfa, r.value.locs.rules, Named(insn).value, v)
  {
    hide Machine.Scaled, Operand64, Saved, Env.Word, Eval.ReadWord, Recordable;
    SavedIsRead(env, (cfa + d) % TWO_64, v);
    match insn
    case DefOffset(_, n) => SlotIs(m, n, n, cie.data_factor, cfa);
    case OffsetExtendedSf(_, n) =>
      OperandIs(n);
      SlotIs(m, n, Operand64(n), cie.data_factor, cfa);
    case NegativeOffsetExtended(_, n) => SlotIs(m, n, n, -1, cfa);
    case OffsetExtended(_, _) =>
  }

  lemma SlotIs(m: Machine, n: nat, i: int, factor: int, cfa: nat)
    requires m.Valid() && n % TWO_64 == i % TWO_64 && Recordable(m, i * factor)
    ensures (cfa + m.Scaled(n, factor)) % TWO_64 == (cfa + i * factor) % TWO_64
  {
    hide Machine.Scaled, Recordable;
    ScaledExactly(m, n, i, factor);
    ModPlus(cfa, m.Scaled(n, factor), TWO_64);
    ModPlus(cfa, i * factor, TWO_64);
    RemainderIs(m.Scaled(n, factor), TWO_64, 0, m.Scaled(n, factor));
  }

  /** The register is an offset from the frame address. */
  lemma ValOffsetLaw(m: Machine, env: Env, cie: Cie, cie_rules: Option<Rules>, st: State, cfa: nat, reg: nat, n: nat)
    requires SameMachine(m, env) && reg < |env.regs| <= 64 && n < TWO_64
    ensures var r := Exec(m, cie, cie_rules, DefValOffset(reg, n), st);
            r.Some? && Gives(env, cfa, r.value.locs.rules, reg, (cfa + n * cie.data_factor) % env.Word())
    ensures var r := Exec(m, cie, cie_rules, DefValOffsetSf(reg, n), st);
            r.Some? && Gives(env, cfa, r.value.locs.rules, reg, (cfa + Operand64(n) * cie.data_factor) % env.Word())
  {
    hide Env.Word, Machine.Scaled, Operand64;
    ScaledBase(m, env, n, cie.data_factor, cfa);
    OffsetLeadsTo(m, cfa, n, cie.data_factor);
  }

  /** The register is in another one, whose number is cut to 32 bits; if there is no such register the rule fails. */
  lemma RegisterLaw(m: Machine, env: Env, cie: Cie, cie_rules: Option<Rules>, st: State, cfa: nat, reg: nat, from: nat)
    requires SameMachine(m, env) && reg < |env.regs| <= 64
    ensures var r := Exec(m, cie, cie_rules, InRegister(reg, from), st);
            r.Some? && forall v :: Gives(env, cfa, r.value.locs.rules, reg, v) <==>
                                     from % TWO_32 < |env.regs| && v == env.regs[from % TWO_32]
  {
    hide Machine.Scaled;
    var q := from % TWO_32;
    if q < |env.regs| { RemainderIs(env.regs[q], env.Word(), 0, env.regs[q]); }
  }

  /** The register was not changed, or is not known: it is left as it is. */
  lemma KeptLaw(m: Machine, env: Env, cie: Cie, cie_rules: Option<Rules>, st: State, cfa: nat, reg: nat)
    requires SameMachine(m, env) && reg < |env.regs| <= 64
    ensures var r := Exec(m, cie, cie_rules, SameValue(reg), st);
            && r.Some? && Gives(env, cfa, r.value.locs.rules, reg, env.regs[reg])
            && !Eval.ReturnAddressUndefined(r.value.locs.rules, reg)
    ensures var r := Exec(m, cie, cie_rules, MarkUndefined(reg), st);
            && r.Some? && Gives(env, cfa, r.value.locs.rules, reg, env.regs[reg])
            && Eval.ReturnAddressUndefined(r.value.locs.rules, reg)
  {
  }

  /** The register is restored as the CIE said. */
  lemma RestoreLaw(m: Machine, env: Env, cie: Cie, cie_rules: Option<Rules>, st: State, cfa: nat, reg: nat, v: nat)
    requires SameMachine(m, env) && reg < |env.regs| <= 64
    ensures var r := Exec(m, cie, cie_rules, Restore(reg), st);
            && (r.Some? <==> cie_rules.Some?)
            && (r.Some? ==> (Gives(env, cfa, r.value.locs.rules, reg, v) <==> Gives(env, cfa, cie_rules.value, reg, v)))
  {
    hide Eval.RuleValue;
  }

  /** An expression leads to where the register was saved, or is its value. */
  lemma ExpressionLaw(m: Machine, env: Env, cie: Cie, cie_rules: Option<Rules>, st: State, cfa: nat, reg: nat,
                      length: nat, end: nat, a: int, v: nat)
    requires SameMachine(m, env) && reg < |env.regs| <= 64 && Computes(env, length, end, a)
    ensures var r := Exec(m, cie, cie_rules, DefExpression(reg, length, end), st);
            r.Some? && (Saved(env, a % env.Word(), v) ==> Gives(env, cfa, r.value.locs.rules, reg, v))
    ensures var r := Exec(m, cie, cie_rules, DefValExpression(reg, length, end), st);
            r.Some? && Gives(env, cfa, r.value.locs.rules, reg, a % env.Word())
  {
    hide Computes, Env.Word, Saved, Eval.ReadWord, Eval.ExpressionResult;
    ExpressionGives(env, Location(Expression, length, end), a);
    ExpressionGives(env, Location(ValExpression, length, end), a);
    if Saved(env, a % env.Word(), v) { SavedIsRead(env, a % env.Word(), v); }
  }

  /** The location is set, or moves by a multiple of the code alignment factor, modulo the address space. */
  lemma LocationLaw(m: Machine, cie: Cie, cie_rules: Option<Rules>, st: State, n: nat)
    requires m.Valid()
    ensures var r := Exec(m, cie, cie_rules, AdvanceLoc(n), st);
            && r.Some? && r.value.locs == st.locs && r.value.stack == st.stack && r.value.cur_pc < m.modulus
            && (r.value.cur_pc - (st.cur_pc + n * cie.code_factor)) % m.modulus == 0
    ensures var r := Exec(m, cie, cie_rules, SetLoc(n), st);
            && r.Some? && r.value.locs == st.locs && r.value.stack == st.stack && r.value.cur_pc < m.modulus
            && (r.value.cur_pc - n) % m.modulus == 0
    ensures Exec(m, cie, cie_rules, Insn.Nop, st) == Some(st) && Exec(m, cie, cie_rules, Insn.Illegal, st).None?
  {
    Cycles(st.cur_pc + n * cie.code_factor, m.modulus);
    Cycles(n, m.modulus);
  }

  lemma Cycles(x: int, m: nat)
    requires m >= 1
    ensures (x % m - x) % m == 0
  {
    var q, r := Divides(x, m);
    RemainderIs(x, m, q, r);
    Distributes(-q, 0, m);
    RemainderIs(x % m - x, m, -q, 0);
  }

  /** The signing state of the return address flips, on the machine that has one. */
  lemma SigningLaw(m: Machine, cie: Cie, cie_rules: Option<Rules>, st: State)
    requires m.Valid()
    ensures Exec(m, cie, cie_rules, NegateRaState, st).Some? <==> m.arm64
    ensures m.arm64 && Signing(st.locs.rules).Some? ==>
              Signing(Exec(m, cie, cie_rules, NegateRaState, st).value.locs.rules) ==
                  Some(!Signing(st.locs.rules).value)
  {
  }

  /** Whether the return address is signed; no rule means that it is not. */
  function Signing(rules: Rules): Option<bool> {
    if RA_SIGN_STATE !in rules then Some(false)
    else if rules[RA_SIGN_STATE].kind != PseudoRegister || rules[RA_SIGN_STATE].v0 > 1 then None
    else Some(rules[RA_SIGN_STATE].v0 == 1)
  }
}
