/**
 What call frame instructions mean: which rules they touch, what a remembered state
 is good for, and where offsets lead.
 */
module CallFrameLaws {
  import opened Bits
  import opened DwarfCfa
  import opened OrderedKeys
  import opened WordSizes

  // ----- remembered states

  /** Every state that is restored was remembered within the instructions, and none stays behind. */
  predicate Balanced(insns: seq<Insn>, depth: nat) {
    if insns == [] then depth == 0
    else if insns[0].RememberState? then Balanced(insns[1..], depth + 1)
    else if insns[0].RestoreState? then depth > 0 && Balanced(insns[1..], depth - 1)
    else Balanced(insns[1..], depth)
  }

  /** The run fails, or ends because the location has passed the pc. */
  predicate Stops(r: Option<State>, pc: nat) {
    r.Some? ==> r.value.cur_pc > pc
  }

  /** A run that gets through balanced instructions finds the remembered states as they were. */
  lemma {:induction false} BalancedKeepsStack(m: Machine, fde: Fde, cie_rules: Option<Rules>, insns: seq<Insn>, pc: nat,
                                              i: nat, j: nat, st: State, depth: nat, base: seq<Locations>)
    returns (through: bool, st': State)
    requires m.Valid() && i <= j <= |insns| && Balanced(insns[i..j], depth)
    requires |st.stack| == depth + |base| && st.stack[depth..] == base
    ensures if through then
              Run(m, fde, cie_rules, insns, pc, i, st) == Run(m, fde, cie_rules, insns, pc, j, st') && st'.stack == base
            else Stops(Run(m, fde, cie_rules, insns, pc, i, st), pc)
    decreases j - i
  {
    through, st' := true, st;
    if i == j {
      assert insns[i..j] == [] && st.stack[0..] == st.stack;
    } else if st.cur_pc > pc {
      through := false;
    } else {
      var next := Exec(m, fde.cie, cie_rules, insns[i], Marked(st));
      if next.None? { return false, st; }
      var depth' := if insns[i].RememberState? then depth + 1 else if insns[i].RestoreState? then depth - 1 else depth;
      assert insns[i..j][1..] == insns[i + 1..j];
      StackMoves(m, fde.cie, cie_rules, insns[i], Marked(st), depth, depth', base);
      hide Exec;
      through, st' := BalancedKeepsStack(m, fde, cie_rules, insns, pc, i + 1, j, next.value, depth', base);
    }
  }

  lemma StackMoves(m: Machine, cie: Cie, cie_rules: Option<Rules>, insn: Insn, st: State, depth: nat, depth': nat,
                   base: seq<Locations>)
    requires m.Valid() && Exec(m, cie, cie_rules, insn, st).Some? && |st.stack| == depth + |base|
             && st.stack[depth..] == base
    requires depth' == if insn.RememberState? then depth + 1 else if insn.RestoreState? then depth - 1 else depth
    ensures var s := Exec(m, cie, cie_rules, insn, st).value.stack; |s| == depth' + |base| && s[depth'..] == base
  {
    var s := Exec(m, cie, cie_rules, insn, st).value.stack;
    assert |s| == depth' + |base|;
    forall k | 0 <= k < |base|
      ensures s[depth' + k] == base[k]
    {
      assert st.stack[depth..][k] == st.stack[depth + k];
    }
  }

  /**
   Between remembering and restoring the state anything may happen to the rules.
   A run that gets through goes on as if only the location had moved, with the
   start of the row back where the state was remembered.
   */
  lemma RestoreUndoes(m: Machine, fde: Fde, cie_rules: Option<Rules>, insns: seq<Insn>, pc: nat, i: nat, j: nat,
                      st: State)
    returns (through: bool, loc: nat)
    requires m.Valid() && i < j < |insns| && insns[i].RememberState? && Balanced(insns[i + 1..j], 0)
             && insns[j].RestoreState?
    ensures var r := Run(m, fde, cie_rules, insns, pc, i, st);
            if through then r == Run(m, fde, cie_rules, insns, pc, j + 1, Marked(st).(cur_pc := loc)) else Stops(r, pc)
  {
    if st.cur_pc > pc { return false, 0; }
    var marked := Marked(st);
    var remembered := marked.(stack := [marked.locs] + st.stack);
    var st';
    through, st' := BalancedKeepsStack(m, fde, cie_rules, insns, pc, i + 1, j, remembered, 0, [marked.locs] + st.stack);
    loc := st'.cur_pc;
    if through {
      if st'.cur_pc > pc { return false, 0; }
      assert ([marked.locs] + st.stack)[1..] == st.stack;
      assert Exec(m, fde.cie, cie_rules, insns[j], Marked(st')) == Some(marked.(cur_pc := loc));
    }
  }

  // ----- which rules an instruction touches

  /** The register whose rule an instruction sets or drops. */
  function Named(insn: Insn): Option<nat> {
    match insn
    case DefOffset(reg, _) => Some(reg)
    case OffsetExtended(reg, _) => Some(reg)
    case OffsetExtendedSf(reg, _) => Some(reg)
    case Restore(reg) => Some(reg)
    case MarkUndefined(reg) => Some(reg)
    case SameValue(reg) => Some(reg)
    case InRegister(reg, _) => Some(reg)
    case DefExpression(reg, _, _) => Some(reg)
    case DefValExpression(reg, _, _) => Some(reg)
    case DefValOffset(reg, _) => Some(reg)
    case DefValOffsetSf(reg, _) => Some(reg)
    case NegativeOffsetExtended(reg, _) => Some(reg)
    case NegateRaState => Some(RA_SIGN_STATE)
    case DefCfa(_, _) => Some(CFA_REG)
    case DefCfaSf(_, _) => Some(CFA_REG)
    case DefCfaRegister(_) => Some(CFA_REG)
    case DefCfaOffset(_) => Some(CFA_REG)
    case DefCfaOffsetSf(_) => Some(CFA_REG)
    case DefCfaExpression(_, _) => Some(CFA_REG)
    case _ => None
  }

  /** An instruction leaves the rules of all registers but the one it names, unless it restores the state. */
  lemma OthersKept(m: Machine, cie: Cie, cie_rules: Option<Rules>, insn: Insn, st: State, reg: nat)
    requires m.Valid() && !insn.RestoreState? && Named(insn) != Some(reg)
    ensures var r := Exec(m, cie, cie_rules, insn, st);
            r.Some? ==> (reg in r.value.locs.rules <==> reg in st.locs.rules)
                        && (reg in st.locs.rules ==> r.value.locs.rules[reg] == st.locs.rules[reg])
  {
  }

  // ----- where offsets lead

  lemma SignedIsCongruent(m: Machine, n: int)
    requires m.Valid()
    ensures m.Signed(n) % m.modulus == n % m.modulus
  {
    var q, r := Divides(n, m.modulus);
    Distributes(q, 1, m.modulus);
    if r >= m.modulus / 2 { SameMod(r - m.modulus, n, -1 - q, m.modulus); } else { SameMod(r, n, -q, m.modulus); }
  }

  /**
   The offset that is recorded leads from the frame address to where the instruction
   says: a multiple of the factor away.
   */
  lemma OffsetLeadsTo(m: Machine, cfa: int, n: int, factor: int)
    requires m.Valid()
    ensures (cfa + m.Scaled(n, factor)) % m.modulus == (cfa + n * factor) % m.modulus
  {
    var product := m.Signed(n) * factor;
    SignedIsCongruent(m, n);
    SignedIsCongruent(m, product);
    ModTimes(m.Signed(n), factor, m.modulus);
    ModTimes(n, factor, m.modulus);
    WordOf64(m, m.Signed(product));
    ModPlus(cfa, m.Scaled(n, factor), m.modulus);
    ModPlus(cfa, n * factor, m.modulus);
  }

  /**
   What the standards ask of an instruction with a factored offset: the register, the
   kind of its rule, and the offset.
   */
  datatype Asked = Asked(reg: nat, kind: LocationType, offset: int)

  /**
   The instructions of sections 6.4.2.3 of DWARF version 4 with a factored offset,
   and the one that the Linux Standard Base adds, whose offset is subtracted.
   */
  function Factored(cie: Cie, insn: Insn): Option<Asked> {
    match insn
    case DefOffset(reg, n) => Some(Asked(reg, Offset, n * cie.data_factor))
    case OffsetExtended(reg, n) => Some(Asked(reg, Offset, n * cie.data_factor))
    case OffsetExtendedSf(reg, n) => Some(Asked(reg, Offset, n * cie.data_factor))
    case DefValOffset(reg, n) => Some(Asked(reg, ValOffset, n * cie.data_factor))
    case DefValOffsetSf(reg, n) => Some(Asked(reg, ValOffset, n * cie.data_factor))
    case NegativeOffsetExtended(reg, n) => Some(Asked(reg, Offset, -(n * cie.data_factor)))
    case _ => None
  }

  /** The instruction gives its register the rule that is asked for, in the arithmetic of the address type. */
  predicate GivesRule(m: Machine, cie: Cie, cie_rules: Option<Rules>, insn: Insn, st: State, asked: Asked)
    requires m.Valid()
  {
    var r := Exec(m, cie, cie_rules, insn, st);
    && r.Some? && asked.reg in r.value.locs.rules
    && var loc := r.value.locs.rules[asked.reg];
       loc.kind == asked.kind && loc.v0 % m.modulus == asked.offset % m.modulus
  }

  /** The instructions whose operand the code leaves as it is. */
  predicate Unscaled(insn: Insn) {
    insn.OffsetExtended? || insn.NegativeOffsetExtended?
  }

  lemma Recorded(m: Machine, cie: Cie, cie_rules: Option<Rules>, insn: Insn, st: State)
    requires m.Valid() && Factored(cie, insn).Some?
    ensures var asked, r := Factored(cie, insn).value, Exec(m, cie, cie_rules, insn, st);
            && r.Some? && asked.reg in r.value.locs.rules && r.value.locs.rules[asked.reg].kind == asked.kind
            && r.value.locs.rules[asked.reg].v0 ==
               if insn.OffsetExtended? then insn.n
               else m.Scaled(insn.n, if insn.NegativeOffsetExtended? then -1 else cie.data_factor)
  {
  }

  /**
   An instruction with a factored offset gives the rule that is asked for if and
   only if the code scales its operand, or scaling makes no difference to it.
   */
  lemma OffsetsExactly(m: Machine, cie: Cie, cie_rules: Option<Rules>, insn: Insn, st: State)
    requires m.Valid() && Factored(cie, insn).Some?
    ensures GivesRule(m, cie, cie_rules, insn, st, Factored(cie, insn).value) <==>
            (Unscaled(insn) ==> (insn.n * (cie.data_factor - 1)) % m.modulus == 0)
  {
    hide Exec, Machine.Scaled;
    var n, factor := insn.n, cie.data_factor;
    Recorded(m, cie, cie_rules, insn, st);
    OffsetLeadsTo(m, 0, n, if insn.NegativeOffsetExtended? then -1 else factor);
    if Unscaled(insn) {
      var sign := if insn.OffsetExtended? then 1 else -1;
      ScalingMatters(n, factor, sign, m.modulus);
    }
  }

  /** The number and its multiple have the same remainder exactly if their difference has none, whatever the sign. */
  lemma ScalingMatters(n: int, factor: int, sign: int, modulus: nat)
    requires modulus >= 1 && (sign == 1 || sign == -1)
    ensures (sign * n) % modulus == (sign * (n * factor)) % modulus <==> (n * (factor - 1)) % modulus == 0
  {
    var a, b := sign * n, sign * (n * factor);
    var d := n * (factor - 1);
    assert d == n * factor - n;
    var p, x := Divides(a, modulus);
    var q, y := Divides(b, modulus);
    var k, r := Divides(d, modulus);
    Distributes(q, p, modulus);
    if x == y {
      var j := if sign == 1 then q - p else p - q;
      Distributes(p, q, modulus);
      assert d == j * modulus;
      RemainderIs(d, modulus, j, 0);
    }
    if r == 0 {
      if sign == 1 { SameMod(b, a, k, modulus); } else { SameMod(a, b, k, modulus); }
    }
  }

  /** The usual factor of a 64-bit machine and the smallest operand: the rule leads 1 up, where 8 down is asked for. */
  lemma OffsetExtendedIsOff(st: State)
    ensures var m, cie, insn := Machine(TWO_64, false), Cie(1, -8, []), OffsetExtended(16, 1);
            m.Valid() && Factored(cie, insn).Some? && !GivesRule(m, cie, None, insn, st, Factored(cie, insn).value)
  {
    OffsetsExactly(Machine(TWO_64, false), Cie(1, -8, []), None, OffsetExtended(16, 1), st);
  }

  lemma WordOf64(m: Machine, x: int)
    requires m.Valid()
    ensures x % TWO_64 % m.modulus == x % m.modulus
  {
    var q, r := Divides(x, TWO_64);
    var k := TWO_64 / m.modulus;
    assert TWO_64 == k * m.modulus;
    assert q * TWO_64 == q * k * m.modulus;
    SameMod(x, r, q * k, m.modulus);
  }
}
