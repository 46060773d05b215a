/**
 Restoring the registers of the caller.  The rules are visited in no particular
 order and registers are overwritten one by one; a register that is overwritten
 is saved first, so that every rule sees the registers of the callee.
 */
module RegisterEval {
  import opened Bits
  import opened DwarfCfa
  import opened DwarfMemory
  import opened Ops = DwarfOp
  import opened OrderedKeys
  import opened WordSizes

  const MAX_REGISTERS: nat := 64

  /** The registers of a processor; `adjust_pc` is what setting the pc makes of it. */
  class Regs {
    const pc_reg: nat
    const sp_reg: nat
    const pseudo_ids: set<nat>
    const adjust_pc: (nat, map<nat, nat>) -> nat
    var values: seq<nat>
    var dex_pc: nat
    var pseudo: map<nat, nat>

    ghost predicate Valid()
      reads this
    {
      |values| <= MAX_REGISTERS && pc_reg < |values| && sp_reg < |values| && pc_reg != sp_reg
    }

    function Pc(): nat
      requires Valid()
      reads this
    {
      values[pc_reg]
    }
  }

  /** Registers, and the saved values of those that were overwritten. */
  class RegsInfo {
    const regs: Regs
    var saved_reg_map: set<nat>
    var saved_regs: array<nat>

    constructor (regs: Regs)
      ensures this.regs == regs && saved_reg_map == {} && fresh(saved_regs) && saved_regs.Length == MAX_REGISTERS
    {
      this.regs, saved_reg_map, saved_regs := regs, {}, new nat[MAX_REGISTERS];
    }

    ghost predicate Valid()
      reads this, regs
    {
      saved_regs.Length == MAX_REGISTERS && regs.Valid()
    }

    predicate IsSaved(reg: nat)
      reads this
    {
      reg in saved_reg_map
    }

    function Get(reg: nat): nat
      requires Valid() && reg < |regs.values|
      reads this, regs, saved_regs
    {
      if IsSaved(reg) then saved_regs[reg] else regs.values[reg]
    }

    /** The registers that the rules see are those of the callee. */
    ghost predicate Shows(callee: seq<nat>)
      reads this, regs, saved_regs
    {
      Valid() && |regs.values| == |callee| && forall r :: 0 <= r < |callee| ==> Get(r) == callee[r]
    }

    /** Before a register is overwritten for the first time, it is saved. */
    method Save(reg: nat)
      requires Valid() && reg < |regs.values|
      modifies this, saved_regs
      ensures Valid() && saved_regs == old(saved_regs) && saved_reg_map == old(saved_reg_map) + {reg}
      ensures saved_regs[..] == old(saved_regs[..])[reg := regs.values[reg]]
    {
      saved_reg_map := saved_reg_map + {reg};
      saved_regs[reg] := regs.values[reg];
    }

    method View() returns (view: seq<nat>)
      requires Valid()
      ensures |view| == |regs.values| && forall r :: 0 <= r < |view| ==> view[r] == Get(r)
    {
      view := [];
      for r := 0 to |regs.values|
        invariant |view| == r && forall i :: 0 <= i < r ==> view[i] == Get(i)
      {
        view := view + [Get(r)];
      }
    }
  }

  // ----- what the rules mean

  /** The value of an expression, and whether it is marked as a dex pc. */
  function ExpressionResult(env: Env, loc: Location): Outcome<nat>
    requires env.Valid()
  {
    match Ops.Run(env, Cpu(StartOf(loc), [], false), loc.v1, 0)
    case Fail(e) => Fail(e)
    case Ok(cpu) =>
      if cpu.stack == [] then Fail(IllegalState)
      else if cpu.is_register then Fail(NoHandler)
      else Ok(cpu.stack[0])
  }

  function StartOf(loc: Location): nat {
    (loc.v1 - loc.v0) % TWO_64
  }

  function ReadWord(ram: nat -> Option<Byte>, bits: nat, addr: nat): Outcome<nat> {
    match ReadRam(ram, addr, bits / 8)
    case None => Fail(MemoryInvalid)
    case Some(v) => Ok(v % Pow2(bits))
  }

  /** The canonical frame address, from the registers of the callee. */
  function CfaValue(env: Env, loc: Location): Outcome<nat>
    requires env.Valid()
  {
    match loc.kind
    case Register => if loc.v0 >= |env.regs| then Fail(IllegalValue) else Ok((env.regs[loc.v0] + loc.v1) % env.Word())
    case ValExpression => ExpressionResult(env, loc)
    case _ => Fail(IllegalValue)
  }

  /**
   What a rule gives its register; nothing if it leaves the register as it is.
   The address of an offset rule is a sum of 64 bits on every machine.
   */
  function RuleValue(env: Env, cfa: nat, loc: Location): Outcome<Option<nat>>
    requires env.Valid()
  {
    match loc.kind
    case Offset => Found(ReadWord(env.ram, env.bits, (cfa + loc.v0) % TWO_64))
    case ValOffset => Ok(Some((cfa + loc.v0) % env.Word()))
    case Register =>
      var reg := loc.v0 % TWO_32;
      if reg >= |env.regs| then Fail(IllegalValue) else Ok(Some((env.regs[reg] + loc.v1) % env.Word()))
    case Expression =>
      var addr := ExpressionResult(env, loc);
      if addr.Fail? then Fail(addr.error) else Found(ReadWord(env.ram, env.bits, addr.value))
    case ValExpression => Found(ExpressionResult(env, loc))
    case Undefined => Ok(None)
    case PseudoRegister => Fail(IllegalValue)
  }

  function Found(o: Outcome<nat>): Outcome<Option<nat>> {
    match o
    case Fail(e) => Fail(e)
    case Ok(v) => Ok(Some(v))
  }

  /** The rule can be followed. */
  predicate RuleWorks(env: Env, cfa: nat, pseudo_ids: set<nat>, reg: nat, loc: Location)
    requires env.Valid()
  {
    if reg >= |env.regs| then loc.kind != PseudoRegister || reg % 0x1_0000 in pseudo_ids
    else RuleValue(env, cfa, loc).Ok?
  }

  /** The value of a register after its rule, if it has one, was followed in the registers of the callee. */
  function Restored(env: Env, cfa: nat, rules: Rules, reg: nat): nat
    requires env.Valid() && reg < |env.regs|
  {
    if reg in rules && reg != CFA_REG then
      var v := RuleValue(env, cfa, rules[reg]);
      if v.Ok? && v.value.Some? then v.value.value else env.regs[reg]
    else env.regs[reg]
  }

  /** The rule of this register gives a dex pc. */
  ghost predicate SetsDexPc(env: Env, rules: Rules, reg: nat) {
    && reg in rules && reg != CFA_REG && reg < |env.regs| && rules[reg].kind == ValExpression
    && MarksDexPc(env, StartOf(rules[reg]), rules[reg].v1)
  }

  predicate SetsPseudo(env: Env, rules: Rules, reg: nat, id: nat) {
    reg in rules && reg != CFA_REG && reg >= |env.regs| && rules[reg].kind == PseudoRegister && reg % 0x1_0000 == id
  }

  predicate ReturnAddressUndefined(rules: Rules, ra: nat) {
    ra in rules && ra != CFA_REG && rules[ra].kind == Undefined
  }

  /** All rules can be followed. */
  ghost predicate Works(env: Env, pseudo_ids: set<nat>, rules: Rules, ra: nat)
    requires env.Valid()
  {
    && ra < |env.regs| && CFA_REG in rules && CfaValue(env, rules[CFA_REG]).Ok?
    && forall reg :: reg in rules && reg != CFA_REG ==>
                       RuleWorks(env, CfaValue(env, rules[CFA_REG]).value, pseudo_ids, reg, rules[reg])
  }

  // ----- the loop over the rules

  /** The registers once the rules of `done` were followed. */
  ghost predicate RestoredFor(env: Env, cfa: nat, rules: Rules, done: set<nat>, values: seq<nat>)
    requires env.Valid()
  {
    |values| == |env.regs| &&
    forall r :: 0 <= r < |values| ==> values[r] == if r in done then Restored(env, cfa, rules, r) else env.regs[r]
  }

  /** The dex pc is one that a rule of `done` gives, or zero if none does. */
  ghost predicate DexPcFor(env: Env, cfa: nat, rules: Rules, done: set<nat>, dex_pc: nat)
    requires env.Valid()
  {
    if exists r :: r in done && SetsDexPc(env, rules, r)
    then exists r :: r in done && SetsDexPc(env, rules, r) && dex_pc == Restored(env, cfa, rules, r)
    else dex_pc == 0
  }

  /** Each pseudo register has a value that a rule of `done` gives it, or zero if none does. */
  ghost predicate PseudoFor(env: Env, rules: Rules, done: set<nat>, ids: set<nat>, pseudo: map<nat, nat>) {
    && pseudo.Keys == ids
    && forall id :: id in ids ==> PseudoIs(env, rules, done, id, pseudo[id])
  }

  ghost predicate PseudoIs(env: Env, rules: Rules, done: set<nat>, id: nat, value: nat) {
    if exists r :: r in done && SetsPseudo(env, rules, r, id)
    then exists r :: r in done && SetsPseudo(env, rules, r, id) && value == rules[r].v0
    else value == 0
  }

  lemma DexPcKept(env: Env, cfa: nat, rules: Rules, done: set<nat>, dex_pc: nat, reg: nat)
    requires env.Valid() && DexPcFor(env, cfa, rules, done, dex_pc) && !SetsDexPc(env, rules, reg)
    ensures DexPcFor(env, cfa, rules, done + {reg}, dex_pc)
  {
  }

  lemma PseudoKept(env: Env, rules: Rules, done: set<nat>, ids: set<nat>, pseudo: map<nat, nat>, reg: nat)
    requires PseudoFor(env, rules, done, ids, pseudo)
             && (reg < |env.regs| || reg !in rules || rules[reg].kind != PseudoRegister)
    ensures PseudoFor(env, rules, done + {reg}, ids, pseudo)
  {
    forall id | id in ids
      ensures PseudoIs(env, rules, done + {reg}, id, pseudo[id])
    {
      assert PseudoIs(env, rules, done, id, pseudo[id]);
      assert !SetsPseudo(env, rules, reg, id);
    }
  }

  lemma PseudoSet(env: Env, rules: Rules, done: set<nat>, ids: set<nat>, pseudo: map<nat, nat>, reg: nat)
    requires PseudoFor(env, rules, done, ids, pseudo) && SetsPseudo(env, rules, reg, reg % 0x1_0000)
             && reg % 0x1_0000 in ids
    ensures PseudoFor(env, rules, done + {reg}, ids, pseudo[reg % 0x1_0000 := rules[reg].v0])
  {
    var pseudo' := pseudo[reg % 0x1_0000 := rules[reg].v0];
    forall id | id in ids
      ensures PseudoIs(env, rules, done + {reg}, id, pseudo'[id])
    {
      assert PseudoIs(env, rules, done, id, pseudo[id]);
      assert id == reg % 0x1_0000 <==> SetsPseudo(env, rules, reg, id);
    }
  }

  lemma DexPcSet(env: Env, cfa: nat, rules: Rules, done: set<nat>, reg: nat)
    requires env.Valid() && SetsDexPc(env, rules, reg)
    ensures DexPcFor(env, cfa, rules, done + {reg}, Restored(env, cfa, rules, reg))
  {
    hide Restored, SetsDexPc;
    assert reg in done + {reg};
  }

  /** Following a rule in the registers as they are gives what it gives in those of the callee. */
  lemma RuleFollowed(env: Env, cfa: nat, rules: Rules, done: set<nat>, values: seq<nat>, reg: nat, values': seq<nat>)
    requires env.Valid() && RestoredFor(env, cfa, rules, done, values) && reg in rules && reg != CFA_REG && reg !in done
    requires reg < |values| && RuleValue(env, cfa, rules[reg]).Ok?
    requires var v := RuleValue(env, cfa, rules[reg]).value;
             values' == if v.Some? then values[reg := v.value] else values
    ensures RestoredFor(env, cfa, rules, done + {reg}, values')
  {
    hide RuleValue;
  }

  lemma RuleSkipped(env: Env, cfa: nat, rules: Rules, done: set<nat>, values: seq<nat>, reg: nat)
    requires env.Valid() && RestoredFor(env, cfa, rules, done, values) && reg >= |values|
    ensures RestoredFor(env, cfa, rules, done + {reg}, values)
  {
    hide Restored;
  }

  /** What is known when the rules of `done` have been followed. */
  ghost predicate Visiting(env: Env, cfa: nat, rules: Rules, done: set<nat>, info: RegsInfo)
    reads info, info.regs, info.saved_regs
  {
    && env.Valid() && info.Shows(env.regs) && info.saved_reg_map <= done
    && RestoredFor(env, cfa, rules, done, info.regs.values)
    && DexPcFor(env, cfa, rules, done, info.regs.dex_pc)
    && PseudoFor(env, rules, done, info.regs.pseudo_ids, info.regs.pseudo)
  }

  method EvalExpression(env: Env, loc: Location) returns (value: Outcome<nat>, is_dex_pc: bool)
    requires env.Valid()
    ensures value == ExpressionResult(env, loc)
    ensures value.Ok? ==> (is_dex_pc <==> MarksDexPc(env, StartOf(loc), loc.v1))
  {
    hide Ops.Run, MarksDexPc;
    var op := new Ops.DwarfOp(env);
    var ok, _, _ := op.Eval(StartOf(loc), loc.v1);
    if !ok { return Fail(op.last_error.value), false; }
    if |op.stack| == 0 { return Fail(IllegalState), false; }
    if op.is_register { return Fail(NoHandler), false; }
    return Ok(op.stack[0]), op.dex_pc_set;
  }

  /** Follows the rule of one register, which has been saved. */
  method EvalRegister(section: Env, loc: Location, reg: nat, cfa: nat, ra: nat, info: RegsInfo, ghost callee: seq<nat>)
    returns (error: Option<Error>, return_address_undefined: bool)
    requires info.Shows(callee) && reg < |callee| && info.IsSaved(reg) && section.(regs := callee).Valid()
    modifies info.regs
    ensures var env := section.(regs := callee);
            && (error.None? <==> RuleValue(env, cfa, loc).Ok?)
            && (error.None? ==>
                  var v := RuleValue(env, cfa, loc).value;
                  && info.regs.values == (if v.Some? then old(info.regs.values)[reg := v.value]
                                          else old(info.regs.values))
                  && return_address_undefined == (reg == ra && loc.kind == Undefined)
                  && (loc.kind == ValExpression ==> v.Some?)
                  && info.regs.dex_pc == (if loc.kind == ValExpression && MarksDexPc(env, StartOf(loc), loc.v1)
                                          then v.value
                                          else old(info.regs.dex_pc)))
    ensures info.Shows(callee) && info.regs.pseudo == old(info.regs.pseudo)
  {
    hide ExpressionResult, MarksDexPc, ReadWord, Pow2;
    ghost var env := section.(regs := callee);
    error, return_address_undefined := None, false;
    match loc.kind {
      case Offset =>
        var v := ReadWord(section.ram, section.bits, (cfa + loc.v0) % TWO_64);
        if v.Fail? { return Some(v.error), false; }
        info.regs.values := info.regs.values[reg := v.value];
      case ValOffset =>
        info.regs.values := info.regs.values[reg := (cfa + loc.v0) % section.Word()];
      case Register =>
        var cur_reg := loc.v0 % TWO_32;
        if cur_reg >= |info.regs.values| { return Some(IllegalValue), false; }
        info.regs.values := info.regs.values[reg := (info.Get(cur_reg) + loc.v1) % section.Word()];
      case Expression =>
        var view := info.View();
        assert view == callee;
        var value, _ := EvalExpression(section.(regs := view), loc);
        if value.Fail? { return Some(value.error), false; }
        var v := ReadWord(section.ram, section.bits, value.value);
        if v.Fail? { return Some(v.error), false; }
        info.regs.values := info.regs.values[reg := v.value];
      case ValExpression =>
        var view := info.View();
        assert view == callee;
        var value, is_dex_pc := EvalExpression(section.(regs := view), loc);
        if value.Fail? { return Some(value.error), false; }
        info.regs.values := info.regs.values[reg := value.value];
        if is_dex_pc { info.regs.dex_pc := value.value; }
      case Undefined =>
        return_address_undefined := reg == ra;
      case PseudoRegister =>
        return Some(IllegalValue), false;
    }
  }

  /** Follows the rule of a register that has not been visited. */
  method Visit(section: Env, rules: Rules, reg: nat, cfa: nat, ra: nat, info: RegsInfo, ghost callee: seq<nat>,
               ghost done: set<nat>)
    returns (error: Option<Error>, return_address_undefined: bool)
    requires section.(regs := callee).Valid() && Visiting(section.(regs := callee), cfa, rules, done, info)
    requires reg in rules && reg != CFA_REG && reg !in done
    modifies info, info.regs, info.saved_regs
    ensures error.None? <==> RuleWorks(section.(regs := callee), cfa, info.regs.pseudo_ids, reg, rules[reg])
    ensures error.None? ==> Visiting(section.(regs := callee), cfa, rules, done + {reg}, info)
    ensures error.None? ==> return_address_undefined == (reg < |callee| && reg == ra && rules[reg].kind == Undefined)
    ensures info.saved_regs == old(info.saved_regs)
  {
    hide RestoredFor, DexPcFor, PseudoFor, RuleValue, MarksDexPc, Env.Valid;
    ghost var env := section.(regs := callee);
    return_address_undefined, error := false, None;
    if reg >= |info.regs.values| {
      RuleSkipped(env, cfa, rules, done, info.regs.values, reg);
      DexPcKept(env, cfa, rules, done, info.regs.dex_pc, reg);
      if rules[reg].kind != PseudoRegister {
        PseudoKept(env, rules, done, info.regs.pseudo_ids, info.regs.pseudo, reg);
      } else {
        if reg % 0x1_0000 !in info.regs.pseudo_ids { return Some(IllegalValue), false; }
        PseudoSet(env, rules, done, info.regs.pseudo_ids, info.regs.pseudo, reg);
        info.regs.pseudo := info.regs.pseudo[reg % 0x1_0000 := rules[reg].v0];
      }
    } else {
      ghost var values, dex_pc := info.regs.values, info.regs.dex_pc;
      info.Save(reg);
      error, return_address_undefined := EvalRegister(section, rules[reg], reg, cfa, ra, info, callee);
      if error.None? {
        RuleFollowed(env, cfa, rules, done, values, reg, info.regs.values);
        PseudoKept(env, rules, done, info.regs.pseudo_ids, info.regs.pseudo, reg);
        DexPcStep(env, cfa, rules, done, dex_pc, reg, info.regs.dex_pc);
      }
    }
  }

  lemma DexPcStep(env: Env, cfa: nat, rules: Rules, done: set<nat>, dex_pc: nat, reg: nat, dex_pc': nat)
    requires env.Valid() && DexPcFor(env, cfa, rules, done, dex_pc) && reg in rules && reg != CFA_REG
             && reg < |env.regs|
    requires RuleValue(env, cfa, rules[reg]).Ok?
    requires var loc := rules[reg];
             if loc.kind == ValExpression && MarksDexPc(env, StartOf(loc), loc.v1)
             then RuleValue(env, cfa, loc).value.Some? && dex_pc' == RuleValue(env, cfa, loc).value.value
             else dex_pc' == dex_pc
    ensures DexPcFor(env, cfa, rules, done + {reg}, dex_pc')
  {
    hide MarksDexPc, RuleValue;
    if SetsDexPc(env, rules, reg) {
      DexPcSet(env, cfa, rules, done, reg);
    } else {
      DexPcKept(env, cfa, rules, done, dex_pc, reg);
    }
  }

  method EvalCfa(section: Env, loc: Location, info: RegsInfo) returns (cfa: Outcome<nat>)
    requires info.Valid() && info.saved_reg_map == {} && section.(regs := info.regs.values).Valid()
    ensures cfa == CfaValue(section.(regs := info.regs.values), loc)
  {
    hide ExpressionResult, Pow2, MarksDexPc;
    match loc.kind {
      case Register =>
        if loc.v0 >= |info.regs.values| { return Fail(IllegalValue); }
        cfa := Ok((info.regs.values[loc.v0] + loc.v1) % section.Word());
      case ValExpression =>
        var view := info.View();
        assert view == info.regs.values;
        var value, _ := EvalExpression(section.(regs := view), loc);
        cfa := value;
      case _ => cfa := Fail(IllegalValue);
    }
  }

  // ----- one step up the stack

  /** The frame address and the pc of the caller. */
  ghost function CallerCfa(env: Env, rules: Rules): nat
    requires env.Valid() && CFA_REG in rules
  {
    match CfaValue(env, rules[CFA_REG]) case Ok(cfa) => cfa case Fail(_) => 0
  }

  /** The restored return address, or zero if the rules say that there is none. */
  ghost function ReturnAddress(env: Env, rules: Rules, ra: nat): nat
    requires env.Valid() && CFA_REG in rules && ra < |env.regs|
  {
    if ReturnAddressUndefined(rules, ra) then 0 else Restored(env, CallerCfa(env, rules), rules, ra)
  }

  /** The registers of the caller: every one is assigned from those of the callee, and then pc and sp. */
  ghost predicate IsCaller(env: Env, rules: Rules, ra: nat, regs: Regs, values: seq<nat>)
    requires env.Valid() && CFA_REG in rules && ra < |env.regs|
    reads regs
  {
    && |values| == |env.regs|
    && forall r :: 0 <= r < |values| ==>
         values[r] == if r == regs.sp_reg then CallerCfa(env, rules)
                      else if r == regs.pc_reg then regs.adjust_pc(ReturnAddress(env, rules, ra), regs.pseudo)
                      else Restored(env, CallerCfa(env, rules), rules, r)
  }

  lemma VisitingBegins(env: Env, cfa: nat, rules: Rules, info: RegsInfo)
    requires env.Valid() && info.Valid() && info.regs.values == env.regs && info.saved_reg_map == {}
             && info.regs.dex_pc == 0
    requires info.regs.pseudo == map id | id in info.regs.pseudo_ids :: 0
    ensures Visiting(env, cfa, rules, {}, info)
  {
    hide Restored;
  }

  /** Follows all rules, in any order. */
  method VisitAll(section: Env, rules: Rules, cfa: nat, ra: nat, info: RegsInfo, ghost callee: seq<nat>)
    returns (error: Option<Error>, return_address_undefined: bool)
    requires section.(regs := callee).Valid() && Visiting(section.(regs := callee), cfa, rules, {}, info)
             && ra < |callee|
    modifies info, info.regs, info.saved_regs
    ensures error.None? <==> forall reg :: reg in rules && reg != CFA_REG ==>
                                            RuleWorks(section.(regs := callee), cfa, info.regs.pseudo_ids, reg,
                                                      rules[reg])
    ensures error.None? ==> Visiting(section.(regs := callee), cfa, rules, rules.Keys - {CFA_REG}, info)
    ensures error.None? ==> return_address_undefined == ReturnAddressUndefined(rules, ra)
  {
    hide Visiting, RuleWorks, Env.Valid;
    ghost var env, done := section.(regs := callee), {};
    error, return_address_undefined := None, false;
    var todo := rules.Keys - {CFA_REG};
    while todo != {}
      invariant error.None? && todo <= rules.Keys - {CFA_REG} && done == rules.Keys - {CFA_REG} - todo
      invariant Visiting(env, cfa, rules, done, info) && info.saved_regs == old(info.saved_regs)
      invariant forall reg :: reg in done ==> RuleWorks(env, cfa, info.regs.pseudo_ids, reg, rules[reg])
      invariant return_address_undefined == (ra in done && rules[ra].kind == Undefined)
    {
      var reg :| reg in todo;
      var undefined;
      error, undefined := Visit(section, rules, reg, cfa, ra, info, callee, done);
      if error.Some? { return error, false; }
      return_address_undefined := return_address_undefined || undefined;
      todo, done := todo - {reg}, done + {reg};
    }
    assert done == rules.Keys - {CFA_REG};
  }

  lemma CallerIs(env: Env, rules: Rules, cfa: nat, ra: nat, regs: Regs, values: seq<nat>, values': seq<nat>)
    requires env.Valid() && CFA_REG in rules && ra < |env.regs| && CfaValue(env, rules[CFA_REG]) == Ok(cfa)
    requires RestoredFor(env, cfa, rules, rules.Keys - {CFA_REG}, values) && regs.pc_reg < |values|
             && regs.sp_reg < |values|
    requires var pc := if ReturnAddressUndefined(rules, ra) then 0 else values[ra];
             values' == values[regs.pc_reg := regs.adjust_pc(pc, regs.pseudo)][regs.sp_reg := cfa]
    ensures IsCaller(env, rules, ra, regs, values')
  {
    hide CfaValue, RuleValue;
  }

  /**
   One step up the stack.  If it succeeds, every register has been given the
   value of its rule in the registers of the callee, whatever the order; pc and
   sp are set last.
   */
  method Eval(section: Env, rules: Rules, ra: nat, is_signal_frame: bool, regs: Regs)
    returns (error: Option<Error>, finished: bool)
    requires regs.Valid() && section.(regs := regs.values).Valid()
    modifies regs
    ensures var env := section.(regs := old(regs.values)); error.None? <==> Works(env, regs.pseudo_ids, rules, ra)
    ensures var env := section.(regs := old(regs.values)); error.None? ==>
              && CFA_REG in rules && ra < |env.regs| && regs.Valid() && IsCaller(env, rules, ra, regs, regs.values)
              && DexPcFor(env, CallerCfa(env, rules), rules, rules.Keys - {CFA_REG}, regs.dex_pc)
              && PseudoFor(env, rules, rules.Keys - {CFA_REG}, regs.pseudo_ids, regs.pseudo)
              && finished == (regs.Pc() == 0 && !is_signal_frame)
  {
    hide RestoredFor, DexPcFor, PseudoFor, RuleValue, RuleWorks, CfaValue, Restored, IsCaller, Env.Valid,
         ReturnAddressUndefined;
    ghost var env := section.(regs := regs.values);
    if ra >= |regs.values| { return Some(IllegalValue), false; }
    if CFA_REG !in rules { return Some(CfaNotDefined), false; }
    regs.dex_pc := 0;
    regs.pseudo := map id | id in regs.pseudo_ids :: 0;
    var info := new RegsInfo(regs);
    var cfa := EvalCfa(section, rules[CFA_REG], info);
    if cfa.Fail? { return Some(cfa.error), false; }
    VisitingBegins(env, cfa.value, rules, info);
    var return_address_undefined;
    error, return_address_undefined := VisitAll(section, rules, cfa.value, ra, info, env.regs);
    if error.Some? { return error, false; }
    ghost var values := regs.values;
    var pc := if return_address_undefined then 0 else regs.values[ra];
    regs.values := regs.values[regs.pc_reg := regs.adjust_pc(pc, regs.pseudo)];
    finished := regs.values[regs.pc_reg] == 0 && !is_signal_frame;
    regs.values := regs.values[regs.sp_reg := cfa.value];
    CallerIs(env, rules, cfa.value, ra, regs, values, regs.values);
  }
}
