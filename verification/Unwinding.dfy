/**
 From call frame instructions to the registers of the caller: whatever the
 instructions up to a pc say about where registers were saved, evaluation gives
 back.
 */
module Unwinding {
  import opened Bits
  import opened CfaRows
  import opened Cfi = CallFrameLaws
  import opened CieRuns
  import opened DwarfCfa
  import opened FrameLaws
  import opened FrameTable
  import opened Ops = DwarfOp
  import opened OrderedKeys
  import Eval = RegisterEval
  import Cache = RowCache
  import opened WordSizes

  // ----- what a list of instructions says

  /** The instruction says where the register was saved, and the value is there; one that is undefined is kept. */
  ghost predicate Provided(m: Machine, env: Env, cie: Cie, insn: Insn, cfa: nat, v: nat) {
    match insn
    case DefOffset(_, n) => Recordable(m, n * cie.data_factor) && Saved(env, (cfa + n * cie.data_factor) % TWO_64, v)
    case OffsetExtended(_, n) => Saved(env, (cfa + n) % TWO_64, v)
    case OffsetExtendedSf(_, n) =>
      && n < TWO_64 && Recordable(m, Operand64(n) * cie.data_factor)
      && Saved(env, (cfa + Operand64(n) * cie.data_factor) % TWO_64, v)
    case NegativeOffsetExtended(_, n) => Recordable(m, 0 - n) && Saved(env, (cfa - n) % TWO_64, v)
    case DefValOffset(_, n) => n < TWO_64 && v == (cfa + n * cie.data_factor) % env.Word()
    case DefValOffsetSf(_, n) => n < TWO_64 && v == (cfa + Operand64(n) * cie.data_factor) % env.Word()
    case InRegister(_, from) => from < |env.regs| && v == env.regs[from]
    case SameValue(reg) => reg < |env.regs| && v == env.regs[reg]
    case MarkUndefined(reg) => reg < |env.regs| && v == env.regs[reg]
    case DefExpression(_, length, end) => exists a :: Computes(env, length, end, a) && Saved(env, a % env.Word(), v)
    case DefValExpression(_, length, end) => exists a :: Computes(env, length, end, a) && v == a % env.Word()
    case _ => false
  }

  /** An instruction of this kind restores the register. */
  lemma ProvidedGives(m: Machine, env: Env, cie: Cie, cie_rules: Option<Rules>, insn: Insn, st: State, cfa: nat, v: nat)
    requires SameMachine(m, env) && Provided(m, env, cie, insn, cfa, v)
    requires Named(insn).Some? && Named(insn).value < |env.regs| <= 64
    ensures var r := Exec(m, cie, cie_rules, insn, st);
            && r.Some? && Gives(env, cfa, r.value.locs.rules, Named(insn).value, v)
            && (Eval.ReturnAddressUndefined(r.value.locs.rules, Named(insn).value) <==> insn.MarkUndefined?)
  {
    hide Exec, Saved, Computes, Recordable, Operand64, Env.Word, Gives, Eval.ReturnAddressUndefined;
    if insn.MarkUndefined? {
      KeptLaw(m, env, cie, cie_rules, st, cfa, insn.reg);
      return;
    }
    NotUndefined(m, cie, cie_rules, insn, st);
    if insn.DefOffset? || insn.OffsetExtended? || insn.OffsetExtendedSf? || insn.NegativeOffsetExtended? {
      ProvidedAtOffset(m, env, cie, cie_rules, insn, st, cfa, v);
    } else {
      ProvidedElsewhere(m, env, cie, cie_rules, insn, st, cfa, v);
    }
  }

  lemma ProvidedAtOffset(m: Machine, env: Env, cie: Cie, cie_rules: Option<Rules>, insn: Insn, st: State, cfa: nat,
                         v: nat)
    requires SameMachine(m, env) && Provided(m, env, cie, insn, cfa, v)
    requires Named(insn).Some? && Named(insn).value < |env.regs| <= 64
    requires insn.DefOffset? || insn.OffsetExtended? || insn.OffsetExtendedSf? || insn.NegativeOffsetExtended?
    ensures var r := Exec(m, cie, cie_rules, insn, st);
            r.Some? && Gives(env, cfa, r.value.locs.rules, Named(insn).value, v)
  {
    hide Exec, Saved, Computes, Recordable, Operand64, Env.Word, Gives, SameMachine;
    var d := match insn
      case DefOffset(_, n) => n * cie.data_factor
      case OffsetExtended(_, n) => n as int
      case OffsetExtendedSf(_, n) => Operand64(n) * cie.data_factor
      case NegativeOffsetExtended(_, n) => 0 - n;
    OffsetLaw(m, env, cie, cie_rules, insn, st, cfa, d, v);
  }

  lemma ProvidedElsewhere(m: Machine, env: Env, cie: Cie, cie_rules: Option<Rules>, insn: Insn, st: State, cfa: nat,
                          v: nat)
    requires SameMachine(m, env) && Provided(m, env, cie, insn, cfa, v)
    requires Named(insn).Some? && Named(insn).value < |env.regs| <= 64
    requires !insn.DefOffset? && !insn.OffsetExtended? && !insn.OffsetExtendedSf? && !insn.NegativeOffsetExtended?
    requires !insn.MarkUndefined?
    ensures var r := Exec(m, cie, cie_rules, insn, st);
            r.Some? && Gives(env, cfa, r.value.locs.rules, Named(insn).value, v)
  {
    hide Exec, Saved, Computes, Recordable, Operand64, Env.Word, Gives, SameMachine;
    match insn
    case DefValOffset(reg, n) => ValOffsetLaw(m, env, cie, cie_rules, st, cfa, reg, n);
    case DefValOffsetSf(reg, n) => ValOffsetLaw(m, env, cie, cie_rules, st, cfa, reg, n);
    case InRegister(reg, from) => RegisterLaw(m, env, cie, cie_rules, st, cfa, reg, from);
    case SameValue(reg) => KeptLaw(m, env, cie, cie_rules, st, cfa, reg);
    case DefExpression(reg, length, end) =>
      var a :| Computes(env, length, end, a) && Saved(env, a % env.Word(), v);
      ExpressionLaw(m, env, cie, cie_rules, st, cfa, reg, length, end, a, v);
    case DefValExpression(reg, length, end) =>
      var a :| Computes(env, length, end, a) && v == a % env.Word();
      ExpressionLaw(m, env, cie, cie_rules, st, cfa, reg, length, end, a, v);
  }

  lemma NotUndefined(m: Machine, cie: Cie, cie_rules: Option<Rules>, insn: Insn, st: State)
    requires m.Valid() && Named(insn).Some? && Named(insn).value != CFA_REG
    requires !insn.MarkUndefined? && !insn.Restore? && !insn.NegateRaState?
    ensures var r := Exec(m, cie, cie_rules, insn, st);
            r.Some? ==> !Eval.ReturnAddressUndefined(r.value.locs.rules, Named(insn).value)
  {
    hide Machine.Scaled;
  }

  /** What is said of a register depends on its rule alone. */
  lemma SameRule(env: Env, cfa: nat, rules: Rules, rules': Rules, reg: nat, v: nat)
    requires env.Valid() && Gives(env, cfa, rules, reg, v)
    requires (reg in rules <==> reg in rules') && (reg in rules ==> rules'[reg] == rules[reg])
    ensures Gives(env, cfa, rules', reg, v)
    ensures Eval.ReturnAddressUndefined(rules', reg) <==> Eval.ReturnAddressUndefined(rules, reg)
  {
    hide Eval.RuleValue;
  }

  // ----- the frame address of a list of instructions

  predicate DefinesCfa(insn: Insn) {
    Named(insn) == Some(CFA_REG)
  }

  /** The last register that the frame address was based on. */
  function BaseRegister(insns: seq<Insn>): Option<nat> {
    if insns == [] then None
    else
      match insns[|insns| - 1]
      case DefCfa(reg, _) => Some(reg)
      case DefCfaSf(reg, _) => Some(reg)
      case DefCfaRegister(reg) => Some(reg)
      case _ => BaseRegister(insns[..|insns| - 1])
  }

  /** The last offset from it. */
  function BaseOffset(cie: Cie, insns: seq<Insn>): int {
    if insns == [] then 0
    else
      match insns[|insns| - 1]
      case DefCfa(_, n) => n
      case DefCfaOffset(n) => n
      case DefCfaSf(_, n) => Operand64(n) * cie.data_factor
      case DefCfaOffsetSf(n) => Operand64(n) * cie.data_factor
      case _ => BaseOffset(cie, insns[..|insns| - 1])
  }

  /** The last instruction that says something of a register. */
  function LastOn(insns: seq<Insn>, reg: nat): Option<Insn> {
    if insns == [] then None
    else if Named(insns[|insns| - 1]) == Some(reg) then Some(insns[|insns| - 1])
    else LastOn(insns[..|insns| - 1], reg)
  }

  /** Instructions that set the rule of a register or the frame address, with operands of 64 bits, or do nothing. */
  predicate Simple(insn: Insn) {
    match insn
    case Nop | DefOffset(_, _) | OffsetExtended(_, _) | NegativeOffsetExtended(_, _) => true
    case SameValue(_) | MarkUndefined(_) | InRegister(_, _) => true
    case DefExpression(_, _, _) | DefValExpression(_, _, _) => true
    case OffsetExtendedSf(_, n) => n < TWO_64
    case DefValOffset(_, n) => n < TWO_64
    case DefValOffsetSf(_, n) => n < TWO_64
    case DefCfa(_, n) => n < TWO_64
    case DefCfaSf(_, n) => n < TWO_64
    case DefCfaRegister(_) => true
    case DefCfaOffset(n) => n < TWO_64
    case DefCfaOffsetSf(n) => n < TWO_64
    case _ => false
  }

  /** All instructions are simple, and the frame address has a register before its parts are changed. */
  predicate AllSimple(insns: seq<Insn>) {
    insns != [] ==>
      var init, last := insns[..|insns| - 1], insns[|insns| - 1];
      && Simple(last) && AllSimple(init)
      && (last.DefCfaRegister? || last.DefCfaOffset? || last.DefCfaOffsetSf? ==> BaseRegister(init).Some?)
      && (Named(last) == Some(CFA_REG) ==> last.DefCfa? || last.DefCfaSf? || last.DefCfaRegister? || last.DefCfaOffset?
                                           || last.DefCfaOffsetSf?)
  }

  /** The rules have the frame address of the instructions. */
  ghost predicate TracksBase(m: Machine, cie: Cie, insns: seq<Insn>, rules: Rules)
    requires m.Valid()
  {
    match BaseRegister(insns)
    case None => CFA_REG !in rules
    case Some(reg) => exists o: nat :: BasedOn(rules, reg, o) && o % m.modulus == BaseOffset(cie, insns) % m.modulus
  }

  /** What the last instruction on a register provides, its rule gives. */
  ghost predicate TracksRegister(m: Machine, env: Env, cie: Cie, insns: seq<Insn>, cfa: nat, rules: Rules, reg: nat)
    requires env.Valid()
  {
    match LastOn(insns, reg)
    case None => reg !in rules
    case Some(insn) =>
      forall v :: Provided(m, env, cie, insn, cfa, v) && reg < |env.regs| ==>
                    Restores(env, cfa, rules, reg, v, insn.MarkUndefined?)
  }

  /** The rule of a register gives it this value, and says whether it is undefined. */
  predicate Restores(env: Env, cfa: nat, rules: Rules, reg: nat, v: nat, undefined: bool)
    requires env.Valid()
  {
    Gives(env, cfa, rules, reg, v) && (Eval.ReturnAddressUndefined(rules, reg) <==> undefined)
  }

  lemma RegisterStep(m: Machine, env: Env, cie: Cie, cie_rules: Option<Rules>, insns: seq<Insn>, st: State, cfa: nat,
                     reg: nat)
    requires SameMachine(m, env) && |env.regs| <= 64 && AllSimple(insns) && insns != [] && reg != CFA_REG
    requires TracksRegister(m, env, cie, insns[..|insns| - 1], cfa, st.locs.rules, reg)
    ensures var r := Exec(m, cie, cie_rules, insns[|insns| - 1], st);
            r.Some? ==> TracksRegister(m, env, cie, insns, cfa, r.value.locs.rules, reg)
  {
    hide Exec, Provided, Gives, Restores;
    var init, last := insns[..|insns| - 1], insns[|insns| - 1];
    var r := Exec(m, cie, cie_rules, last, st);
    if r.Some? {
      if Named(last) == Some(reg) {
        forall v | Provided(m, env, cie, last, cfa, v) && reg < |env.regs|
          ensures Restores(env, cfa, r.value.locs.rules, reg, v, last.MarkUndefined?)
        {
          ProvidedGives(m, env, cie, cie_rules, last, st, cfa, v);
          RestoresIs(env, cfa, r.value.locs.rules, reg, v, last.MarkUndefined?);
        }
      } else {
        OthersKept(m, cie, cie_rules, last, st, reg);
        if LastOn(init, reg).Some? {
          var insn := LastOn(init, reg).value;
          forall v | Provided(m, env, cie, insn, cfa, v) && reg < |env.regs|
            ensures Restores(env, cfa, r.value.locs.rules, reg, v, insn.MarkUndefined?)
          {
            assert Restores(env, cfa, st.locs.rules, reg, v, insn.MarkUndefined?);
            SameRestored(env, cfa, st.locs.rules, r.value.locs.rules, reg, v, insn.MarkUndefined?);
          }
        }
      }
    }
  }

  lemma RestoresIs(env: Env, cfa: nat, rules: Rules, reg: nat, v: nat, undefined: bool)
    requires env.Valid() && Gives(env, cfa, rules, reg, v)
    requires Eval.ReturnAddressUndefined(rules, reg) <==> undefined
    ensures Restores(env, cfa, rules, reg, v, undefined)
  {
  }

  lemma SameRestored(env: Env, cfa: nat, rules: Rules, rules': Rules, reg: nat, v: nat, undefined: bool)
    requires env.Valid() && Restores(env, cfa, rules, reg, v, undefined)
    requires (reg in rules <==> reg in rules') && (reg in rules ==> rules'[reg] == rules[reg])
    ensures Restores(env, cfa, rules', reg, v, undefined)
  {
    hide Gives;
    SameRule(env, cfa, rules, rules', reg, v);
  }

  lemma BaseStep(m: Machine, cie: Cie, cie_rules: Option<Rules>, insns: seq<Insn>, st: State)
    requires m.Valid() && AllSimple(insns) && insns != []
    requires TracksBase(m, cie, insns[..|insns| - 1], st.locs.rules)
    ensures var r := Exec(m, cie, cie_rules, insns[|insns| - 1], st);
            r.Some? && TracksBase(m, cie, insns, r.value.locs.rules)
  {
    hide Machine.Scaled, Operand64, Named;
    var init, last := insns[..|insns| - 1], insns[|insns| - 1];
    var rules := Exec(m, cie, cie_rules, last, st).value.locs.rules;
    if Named(last) != Some(CFA_REG) {
      NotOnCfa(last);
      OthersKept(m, cie, cie_rules, last, st, CFA_REG);
      hide Exec;
      if BaseRegister(init).Some? {
        var o: nat :| BasedOn(st.locs.rules, BaseRegister(init).value, o)
                      && o % m.modulus == BaseOffset(cie, init) % m.modulus;
        Based(m, cie, insns, rules, o);
      }
    } else if last.DefCfa? {
      Based(m, cie, insns, rules, last.n);
    } else if last.DefCfaSf? {
      SfOffset(m, cie, last.n);
      Based(m, cie, insns, rules, m.Scaled(last.n, cie.data_factor));
    } else {
      BaseChanges(m, cie, cie_rules, insns, st);
    }
  }

  lemma Based(m: Machine, cie: Cie, insns: seq<Insn>, rules: Rules, o: nat)
    requires m.Valid() && BaseRegister(insns).Some? && BasedOn(rules, BaseRegister(insns).value, o)
    requires o % m.modulus == BaseOffset(cie, insns) % m.modulus
    ensures TracksBase(m, cie, insns, rules)
  {
  }

  lemma NotOnCfa(insn: Insn)
    requires Named(insn) != Some(CFA_REG)
    ensures !insn.DefCfa? && !insn.DefCfaSf? && !insn.DefCfaRegister? && !insn.DefCfaOffset? && !insn.DefCfaOffsetSf?
  {
  }

  lemma SfOffset(m: Machine, cie: Cie, n: nat)
    requires m.Valid() && n < TWO_64
    ensures m.Scaled(n, cie.data_factor) % m.modulus == (Operand64(n) * cie.data_factor) % m.modulus
  {
    OperandIs(n);
    ScaledExactly(m, n, Operand64(n), cie.data_factor);
  }

  lemma BaseChanges(m: Machine, cie: Cie, cie_rules: Option<Rules>, insns: seq<Insn>, st: State)
    requires m.Valid() && insns != [] && Simple(insns[|insns| - 1]) && BaseRegister(insns[..|insns| - 1]).Some?
    requires var last := insns[|insns| - 1]; last.DefCfaRegister? || last.DefCfaOffset? || last.DefCfaOffsetSf?
    requires TracksBase(m, cie, insns[..|insns| - 1], st.locs.rules)
    ensures var r := Exec(m, cie, cie_rules, insns[|insns| - 1], st);
            r.Some? && TracksBase(m, cie, insns, r.value.locs.rules)
  {
    hide Machine.Scaled, Operand64, Named;
    var init, last := insns[..|insns| - 1], insns[|insns| - 1];
    var rules := Exec(m, cie, cie_rules, last, st).value.locs.rules;
    var reg := BaseRegister(init).value;
    var o: nat :| BasedOn(st.locs.rules, reg, o) && o % m.modulus == BaseOffset(cie, init) % m.modulus;
    match last
    case DefCfaRegister(q) => Based(m, cie, insns, rules, o);
    case DefCfaOffset(n) => Based(m, cie, insns, rules, n);
    case DefCfaOffsetSf(n) =>
      SfOffset(m, cie, n);
      Based(m, cie, insns, rules, m.Scaled(n, cie.data_factor));
  }

  /** Whatever simple instructions say last of each register and of the frame address, the rules say. */
  lemma {:induction false} SimpleApplied(m: Machine, env: Env, cie: Cie, cie_rules: Option<Rules>, insns: seq<Insn>,
                                         cfa: nat)
    requires SameMachine(m, env) && |env.regs| <= 64 && AllSimple(insns)
    ensures var r := Applied(m, cie, cie_rules, insns, Fresh(map[]));
            && r.Some? && TracksBase(m, cie, insns, r.value.locs.rules)
            && forall reg :: reg != CFA_REG ==> TracksRegister(m, env, cie, insns, cfa, r.value.locs.rules, reg)
    decreases |insns|
  {
    hide Exec, TracksBase, TracksRegister;
    if insns == [] {
      NothingSaid(m, env, cie, cfa);
    } else {
      var init, last := insns[..|insns| - 1], insns[|insns| - 1];
      assert insns == init + [last];
      SimpleApplied(m, env, cie, cie_rules, init, cfa);
      var st := Applied(m, cie, cie_rules, init, Fresh(map[])).value;
      AppliedBoth(m, cie, cie_rules, init, [last], Fresh(map[]));
      AppliedOne(m, cie, cie_rules, last, st);
      BaseStep(m, cie, cie_rules, insns, st);
      forall reg | reg != CFA_REG
        ensures TracksRegister(m, env, cie, insns, cfa, Exec(m, cie, cie_rules, last, st).value.locs.rules, reg)
      {
        RegisterStep(m, env, cie, cie_rules, insns, st, cfa, reg);
      }
    }
  }

  lemma NothingSaid(m: Machine, env: Env, cie: Cie, cfa: nat)
    requires SameMachine(m, env)
    ensures TracksBase(m, cie, [], map[])
    ensures forall reg :: TracksRegister(m, env, cie, [], cfa, map[], reg)
  {
  }

  lemma AppliedOne(m: Machine, cie: Cie, cie_rules: Option<Rules>, insn: Insn, st: State)
    requires m.Valid()
    ensures Applied(m, cie, cie_rules, [insn], st) == Exec(m, cie, cie_rules, insn, st)
  {
    hide Exec;
    assert [insn][1..] == [];
  }

  // ----- the instructions at a pc

  /** Simple instructions change rules and nothing else, and do not look at those of the CIE. */
  lemma SimpleExec(m: Machine, cie: Cie, cie_rules: Option<Rules>, insn: Insn, rules: Rules)
    requires m.Valid() && Simple(insn)
    ensures var r := Exec(m, cie, cie_rules, insn, Fresh(rules));
            && r == Exec(m, cie, None, insn, Fresh(rules)) && (r.Some? ==> r.value == Fresh(r.value.locs.rules))
            && (NoPseudo(rules) && r.Some? ==> NoPseudo(r.value.locs.rules))
  {
    hide Machine.Scaled;
  }

  /** No rule is that of a pseudo register. */
  ghost predicate NoPseudo(rules: Rules) {
    forall reg :: reg in rules ==> rules[reg].kind != PseudoRegister
  }

  lemma {:induction false} SimpleStates(m: Machine, cie: Cie, cie_rules: Option<Rules>, insns: seq<Insn>, rules: Rules)
    requires m.Valid() && forall insn :: insn in insns ==> Simple(insn)
    ensures var r := Applied(m, cie, cie_rules, insns, Fresh(rules));
            && r == Applied(m, cie, None, insns, Fresh(rules)) && (r.Some? ==> r.value == Fresh(r.value.locs.rules))
            && (NoPseudo(rules) && r.Some? ==> NoPseudo(r.value.locs.rules))
    decreases |insns|
  {
    hide Exec, NoPseudo, Simple;
    if insns != [] {
      SimpleExec(m, cie, cie_rules, insns[0], rules);
      var next := Exec(m, cie, cie_rules, insns[0], Fresh(rules));
      if next.Some? { SimpleStates(m, cie, cie_rules, insns[1..], next.value.locs.rules); }
    }
  }

  lemma {:induction false} EachSimple(insns: seq<Insn>)
    requires AllSimple(insns)
    ensures forall insn :: insn in insns ==> Simple(insn)
    decreases |insns|
  {
    hide Simple;
    if insns != [] {
      var init := insns[..|insns| - 1];
      EachSimple(init);
      assert insns == init + [insns[|insns| - 1]];
    }
  }

  /** The instructions of an FDE up to a pc, after those of its CIE. */
  function InsnsAt(fde: Fde, first: seq<Insn>, lines: seq<Line>, pc: nat): seq<Insn> {
    fde.cie.insns + (first + ChangesUpTo(fde.cie.code_factor, fde.pc_start, lines, pc))
  }

  /** The FDE has these lines, after `first`. */
  predicate IsTable(m: Machine, fde: Fde, first: seq<Insn>, lines: seq<Line>) {
    && fde.insns == first + Insns(lines) && AllStill(first)
    && InOrder(fde.cie.code_factor, fde.pc_start, lines, m.modulus)
  }

  lemma RulesAt(m: Machine, fde: Fde, first: seq<Insn>, lines: seq<Line>, pc: nat)
    requires m.Valid() && IsTable(m, fde, first, lines) && fde.pc_start <= pc
             && AllSimple(InsnsAt(fde, first, lines, pc))
    ensures var r := Applied(m, fde.cie, None, InsnsAt(fde, first, lines, pc), Fresh(map[]));
            && (Interpret(m, fde, pc).Some? <==> r.Some?)
            && (r.Some? ==> Interpret(m, fde, pc).value.rules == r.value.locs.rules && NoPseudo(r.value.locs.rules))
  {
    hide Exec, Applied, Interpret, InOrder, NoPseudo, Simple;
    var insns := InsnsAt(fde, first, lines, pc);
    var changes := first + ChangesUpTo(fde.cie.code_factor, fde.pc_start, lines, pc);
    EachSimple(insns);
    assert forall insn :: insn in fde.cie.insns ==> insn in insns;
    assert forall insn :: insn in changes ==> insn in insns;
    SimpleIsPlain(fde.cie);
    assert NoPseudo(map[]) by { NoneIsPseudo(); }
    SimpleStates(m, fde.cie, None, fde.cie.insns, map[]);
    AppliedBoth(m, fde.cie, None, fde.cie.insns, changes, Fresh(map[]));
    TableMeans(m, fde, first, lines, pc);
    var cie := Applied(m, fde.cie, None, fde.cie.insns, Fresh(map[]));
    if cie.Some? { SimpleStates(m, fde.cie, Some(cie.value.locs.rules), changes, cie.value.locs.rules); }
  }

  lemma NoneIsPseudo()
    ensures NoPseudo(map[])
  {
  }

  lemma SimpleIsPlain(cie: Cie)
    requires forall insn :: insn in cie.insns ==> Simple(insn)
    ensures Plain(cie)
  {
  }

  // ----- the caller

  /**
   The instructions say where the frame of the callee is and where the registers
   of the caller are, and they are there.
   */
  ghost predicate Describes(m: Machine, env: Env, cie: Cie, insns: seq<Insn>, cfa: nat, caller: seq<nat>) {
    && AllSimple(insns) && BaseRegister(insns).Some? && BaseRegister(insns).value < |env.regs| <= 64
    && cfa == (env.regs[BaseRegister(insns).value] + BaseOffset(cie, insns)) % env.Word()
    && |caller| == |env.regs|
    && forall r :: 0 <= r < |caller| ==> SavedAs(m, env, cie, LastOn(insns, r), cfa, r, caller[r])
  }

  /** Nothing is said of the register and it has kept its value, or what is said of it provides the value. */
  ghost predicate SavedAs(m: Machine, env: Env, cie: Cie, said: Option<Insn>, cfa: nat, reg: nat, v: nat)
    requires reg < |env.regs|
  {
    if said.None? then v == env.regs[reg] else Provided(m, env, cie, said.value, cfa, v)
  }

  /** The rules of the caller: its frame address and registers. */
  ghost predicate RulesFor(env: Env, rules: Rules, cfa: nat, caller: seq<nat>, insns: seq<Insn>)
    requires env.Valid()
  {
    && CFA_REG in rules && Eval.CfaValue(env, rules[CFA_REG]) == Ok(cfa) && |caller| == |env.regs| <= 64
    && NoPseudo(rules)
    && forall r :: 0 <= r < |caller| ==> Restores(env, cfa, rules, r, caller[r], IsUndefined(insns, r))
  }

  /** The last that is said of the register is that it is undefined: as a return address, there is no caller. */
  predicate IsUndefined(insns: seq<Insn>, reg: nat) {
    LastOn(insns, reg) == Some(MarkUndefined(reg))
  }

  lemma {:induction false} LastOnNames(insns: seq<Insn>, reg: nat)
    ensures LastOn(insns, reg).Some? ==> Named(LastOn(insns, reg).value) == Some(reg)
  {
    if insns != [] { LastOnNames(insns[..|insns| - 1], reg); }
  }

  /** The pc of the caller, whose return address is in this register. */
  function PcOf(caller: seq<nat>, insns: seq<Insn>, ra: nat): nat
    requires ra < |caller|
  {
    if IsUndefined(insns, ra) then 0 else caller[ra]
  }

  lemma DescribesRules(m: Machine, env: Env, cie: Cie, insns: seq<Insn>, cfa: nat, caller: seq<nat>)
    requires SameMachine(m, env) && Describes(m, env, cie, insns, cfa, caller)
    ensures var r := Applied(m, cie, None, insns, Fresh(map[]));
            r.Some? && (NoPseudo(r.value.locs.rules) ==> RulesFor(env, r.value.locs.rules, cfa, caller, insns))
  {
    hide Applied, AllSimple, BaseRegister, BaseOffset, LastOn, Provided, Restores, NoPseudo;
    SimpleApplied(m, env, cie, None, insns, cfa);
    var rules := Applied(m, cie, None, insns, Fresh(map[])).value.locs.rules;
    BaseIs(m, env, cie, insns, rules, cfa);
    forall r | 0 <= r < |caller|
      ensures Restores(env, cfa, rules, r, caller[r], IsUndefined(insns, r))
    {
      LastOnNames(insns, r);
      assert SavedAs(m, env, cie, LastOn(insns, r), cfa, r, caller[r]);
      assert TracksRegister(m, env, cie, insns, cfa, rules, r);
      if LastOn(insns, r).None? { NoRule(env, cfa, rules, r); }
    }
  }

  lemma NoRule(env: Env, cfa: nat, rules: Rules, reg: nat)
    requires env.Valid() && reg !in rules && reg < |env.regs| <= 64
    ensures Restores(env, cfa, rules, reg, env.regs[reg], false)
  {
    hide Eval.RuleValue;
  }

  lemma BaseIs(m: Machine, env: Env, cie: Cie, insns: seq<Insn>, rules: Rules, cfa: nat)
    requires SameMachine(m, env) && TracksBase(m, cie, insns, rules) && BaseRegister(insns).Some?
    requires BaseRegister(insns).value < |env.regs|
    requires cfa == (env.regs[BaseRegister(insns).value] + BaseOffset(cie, insns)) % env.Word()
    ensures CFA_REG in rules && Eval.CfaValue(env, rules[CFA_REG]) == Ok(cfa)
  {
    hide BaseRegister, BaseOffset, Env.Word;
    var reg := BaseRegister(insns).value;
    var o: nat :| BasedOn(rules, reg, o) && o % m.modulus == BaseOffset(cie, insns) % m.modulus;
    BaseGives(env, rules, reg, o);
    ModPlus(env.regs[reg], o, m.modulus);
    ModPlus(env.regs[reg], BaseOffset(cie, insns), m.modulus);
  }

  /** With such rules evaluation succeeds, and gives the caller its registers back. */
  lemma RestoresCaller(env: Env, rules: Rules, cfa: nat, caller: seq<nat>, insns: seq<Insn>, ra: nat, regs: Eval.Regs,
                       values: seq<nat>)
    requires env.Valid() && RulesFor(env, rules, cfa, caller, insns) && ra < |caller|
    ensures Eval.Works(env, regs.pseudo_ids, rules, ra)
    ensures Eval.IsCaller(env, rules, ra, regs, values) ==>
              && |values| == |caller|
              && forall r :: 0 <= r < |caller| ==>
                   values[r] == if r == regs.sp_reg then cfa
                                else if r == regs.pc_reg then regs.adjust_pc(PcOf(caller, insns, ra), regs.pseudo)
                                else caller[r]
  {
    hide Eval.CfaValue, Eval.RuleValue, IsUndefined;
    assert Restores(env, cfa, rules, ra, caller[ra], IsUndefined(insns, ra));
    forall reg | reg in rules && reg != CFA_REG
      ensures Eval.RuleWorks(env, cfa, regs.pseudo_ids, reg, rules[reg])
    {
      if reg < |caller| { assert Restores(env, cfa, rules, reg, caller[reg], IsUndefined(insns, reg)); }
    }
    forall r | 0 <= r < |caller|
      ensures Eval.Restored(env, cfa, rules, r) == caller[r]
    {
      assert Restores(env, cfa, rules, r, caller[r], IsUndefined(insns, r));
    }
  }

  lemma RulesDescribed(m: Machine, env: Env, fde: Fde, first: seq<Insn>, lines: seq<Line>, pc: nat, cfa: nat,
                       caller: seq<nat>)
    requires SameMachine(m, env) && IsTable(m, fde, first, lines) && fde.pc_start <= pc
    requires Describes(m, env, fde.cie, InsnsAt(fde, first, lines, pc), cfa, caller)
    ensures Interpret(m, fde, pc).Some?
    ensures RulesFor(env, Interpret(m, fde, pc).value.rules, cfa, caller, InsnsAt(fde, first, lines, pc))
    ensures |caller| == |env.regs|
  {
    hide Interpret, Applied, InsnsAt, RulesFor, NoPseudo, IsTable, AllSimple, SavedAs, BaseRegister, BaseOffset;
    RulesAt(m, fde, first, lines, pc);
    DescribesRules(m, env, fde.cie, InsnsAt(fde, first, lines, pc), cfa, caller);
  }

  /**
   One step up the stack from a pc of an FDE that is a table.  If the instructions
   up to the pc describe where the caller's registers are, they are restored: sp
   is the frame address, pc the return address, and every other register has the
   caller's value.
   */
  method StepUp(m: Machine, section: Env, fde: Fde, pc: nat, ra: nat, is_signal_frame: bool, regs: Eval.Regs,
                ghost first: seq<Insn>, ghost lines: seq<Line>, ghost cfa: nat, ghost caller: seq<nat>)
    returns (error: Option<Error>, finished: bool)
    requires regs.Valid() && SameMachine(m, section.(regs := regs.values)) && ra < |regs.values|
    requires IsTable(m, fde, first, lines) && fde.pc_start <= pc
    requires Describes(m, section.(regs := regs.values), fde.cie, InsnsAt(fde, first, lines, pc), cfa, caller)
    modifies regs
    ensures error.None? && regs.Valid() && |regs.values| == |caller|
    ensures forall r :: 0 <= r < |caller| ==>
              regs.values[r] == if r == regs.sp_reg then cfa
                                else if r != regs.pc_reg then caller[r]
                                else regs.adjust_pc(PcOf(caller, InsnsAt(fde, first, lines, pc), ra), regs.pseudo)
    ensures finished == (regs.Pc() == 0 && !is_signal_frame)
  {
    hide Describes, IsTable, Interpret, InsnsAt, Eval.IsCaller, RulesFor, Eval.Works;
    ghost var env := section.(regs := regs.values);
    RulesDescribed(m, env, fde, first, lines, pc, cfa, caller);
    var rules := Interpret(m, fde, pc).value.rules;
    RestoresCaller(env, rules, cfa, caller, InsnsAt(fde, first, lines, pc), ra, regs, []);
    error, finished := Eval.Eval(section, rules, ra, is_signal_frame, regs);
    RestoresCaller(env, rules, cfa, caller, InsnsAt(fde, first, lines, pc), ra, regs, regs.values);
  }

  /** The rules at a pc, through the cache of rows. */
  method LookUp(section: Cache.DwarfSection, pc: nat, ghost fde: Fde) returns (rules: Rules)
    requires section.Usable() && section.CachesHold() && section.HasFde(fde) && CfaRows.Covers(fde, pc)
    requires Regular(section.m, fde) && RestoresRight(section.m, fde) && Interpret(section.m, fde, pc).Some?
    modifies section, section.index
    ensures section.CachesHold() && rules == Interpret(section.m, fde, pc).value.rules
  {
    hide Interpret, Regular, RestoresRight, Cache.DwarfSection.Usable, Cache.DwarfSection.CachesHold,
         Cache.DwarfSection.HasFde, CfaRows.Covers;
    var row := section.Step(pc);
    rules := row.value.locs.rules;
  }

  /**
   The same through the cache of rows, whatever was looked up before.
   */
  method Step(section: Cache.DwarfSection, memory: Env, pc: nat, ra: nat, is_signal_frame: bool, regs: Eval.Regs,
              ghost fde: Fde, ghost first: seq<Insn>, ghost lines: seq<Line>, ghost cfa: nat, ghost caller: seq<nat>)
    returns (error: Option<Error>, finished: bool)
    requires section.Usable() && section.CachesHold() && section.HasFde(fde) && CfaRows.Covers(fde, pc)
    requires Regular(section.m, fde) && RestoresRight(section.m, fde)
    requires regs.Valid() && SameMachine(section.m, memory.(regs := regs.values)) && ra < |regs.values|
    requires IsTable(section.m, fde, first, lines)
    requires Describes(section.m, memory.(regs := regs.values), fde.cie, InsnsAt(fde, first, lines, pc), cfa, caller)
    modifies section, section.index, regs
    ensures section.CachesHold() && error.None? && regs.Valid() && |regs.values| == |caller|
    ensures forall r :: 0 <= r < |caller| ==>
              regs.values[r] == if r == regs.sp_reg then cfa
                                else if r != regs.pc_reg then caller[r]
                                else regs.adjust_pc(PcOf(caller, InsnsAt(fde, first, lines, pc), ra), regs.pseudo)
    ensures finished == (regs.Pc() == 0 && !is_signal_frame)
  {
    hide Describes, IsTable, Interpret, InsnsAt, Eval.IsCaller, RulesFor, Eval.Works, Regular, RestoresRight,
         Cache.DwarfSection.Usable, Cache.DwarfSection.CachesHold, Cache.DwarfSection.HasFde;
    ghost var env := memory.(regs := regs.values);
    RulesDescribed(section.m, env, fde, first, lines, pc, cfa, caller);
    var rules := LookUp(section, pc, fde);
    RestoresCaller(env, rules, cfa, caller, InsnsAt(fde, first, lines, pc), ra, regs, []);
    error, finished := Eval.Eval(memory, rules, ra, is_signal_frame, regs);
    RestoresCaller(env, rules, cfa, caller, InsnsAt(fde, first, lines, pc), ra, regs, regs.values);
  }
}
