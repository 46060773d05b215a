/**
 The call frame instructions of section 6.4 of DWARF version 4, as the unwinder
 runs them to find the register rules at a pc.

 Instructions are given decoded.  `Illegal` stands for one that cannot be read
 or has no handler.
 */
module DwarfCfa {
  import opened OrderedKeys
  import opened WordSizes

  datatype LocationType = Offset | ValOffset | Register | Expression | ValExpression | Undefined | PseudoRegister

  datatype Location = Location(kind: LocationType, v0: nat, v1: nat)

  type Rules = map<nat, Location>

  /** The rules found so far, and the range of pcs they are recorded for. */
  datatype Locations = Locations(rules: Rules, pc_start: nat, pc_end: nat)

  datatype Insn =
    | Nop
    | SetLoc(pc: nat)
    | AdvanceLoc(n: nat)
    | DefOffset(reg: nat, n: nat)
    | OffsetExtended(reg: nat, n: nat)
    | OffsetExtendedSf(reg: nat, n: nat)
    | Restore(reg: nat)
    | MarkUndefined(reg: nat)
    | SameValue(reg: nat)
    | InRegister(reg: nat, from: nat)
    | RememberState
    | RestoreState
    | DefCfa(reg: nat, n: nat)
    | DefCfaSf(reg: nat, n: nat)
    | DefCfaRegister(reg: nat)
    | DefCfaOffset(n: nat)
    | DefCfaOffsetSf(n: nat)
    | DefCfaExpression(length: nat, end: nat)
    | DefExpression(reg: nat, length: nat, end: nat)
    | DefValExpression(reg: nat, length: nat, end: nat)
    | DefValOffset(reg: nat, n: nat)
    | DefValOffsetSf(reg: nat, n: nat)
    | NegativeOffsetExtended(reg: nat, n: nat)
    | NegateRaState
    | Illegal

  datatype Cie = Cie(code_factor: nat, data_factor: int, insns: seq<Insn>)

  datatype Fde = Fde(pc_start: nat, pc_end: nat, cie_offset: nat, cie: Cie, insns: seq<Insn>)

  const CFA_REG: nat := 0xffff
  const RA_SIGN_STATE: nat := 34

  /** The address type: its modulus is 2^32 or 2^64.  `arm64` enables the return address signing state. */
  datatype Machine = Machine(modulus: nat, arm64: bool) {
    predicate Valid() {
      modulus == TWO_32 || modulus == TWO_64
    }

    /** The signed number with the same low bits. */
    function Signed(n: int): int
      requires Valid()
    {
      var w := n % modulus;
      if w >= modulus / 2 then w - modulus else w
    }

    /** A signed multiple, stored in an unsigned field of 64 bits. */
    function Scaled(n: int, factor: int): nat
      requires Valid()
    {
      Signed(Signed(n) * factor) % TWO_64
    }
  }

  /** The interpreter: the current location, the rules, and the remembered rules. */
  datatype State = State(cur_pc: nat, locs: Locations, stack: seq<Locations>)

  function WithRule(st: State, reg: nat, loc: Location): State {
    st.(locs := st.locs.(rules := st.locs.rules[reg := loc]))
  }

  function WithoutRule(st: State, reg: nat): State {
    st.(locs := st.locs.(rules := st.locs.rules - {reg}))
  }

  /** The rule for the CFA, if it is a register. */
  function CfaRegister(st: State): Option<Location> {
    if CFA_REG in st.locs.rules && st.locs.rules[CFA_REG].kind.Register?
    then Some(st.locs.rules[CFA_REG]) else None
  }

  /** One instruction; `cie_rules` is absent while the instructions of the CIE run. */
  function Exec(m: Machine, cie: Cie, cie_rules: Option<Rules>, insn: Insn, st: State): Option<State>
    requires m.Valid()
  {
    match insn
    case Nop => Some(st)
    case SetLoc(pc) => Some(st.(cur_pc := pc % m.modulus))
    case AdvanceLoc(n) => Some(st.(cur_pc := (st.cur_pc + n * cie.code_factor) % m.modulus))
    case DefOffset(reg, n) => Some(WithRule(st, reg, Location(Offset, m.Scaled(n, cie.data_factor), 0)))
    case OffsetExtended(reg, n) => Some(WithRule(st, reg, Location(Offset, n, 0)))
    case OffsetExtendedSf(reg, n) => Some(WithRule(st, reg, Location(Offset, m.Scaled(n, cie.data_factor), 0)))
    case Restore(reg) =>
      if cie_rules.None? then None
      else if reg in cie_rules.value then Some(WithRule(st, reg, cie_rules.value[reg]))
      else Some(WithoutRule(st, reg))
    case MarkUndefined(reg) => Some(WithRule(st, reg, Location(Undefined, 0, 0)))
    case SameValue(reg) => Some(WithoutRule(st, reg))
    case InRegister(reg, from) => Some(WithRule(st, reg, Location(Register, from, 0)))
    case RememberState => Some(st.(stack := [st.locs] + st.stack))
    case RestoreState =>
      if st.stack == [] then Some(st) else Some(st.(locs := st.stack[0], stack := st.stack[1..]))
    case DefCfa(reg, n) => Some(WithRule(st, CFA_REG, Location(Register, reg, n)))
    case DefCfaSf(reg, n) => Some(WithRule(st, CFA_REG, Location(Register, reg, m.Scaled(n, cie.data_factor))))
    case DefCfaRegister(reg) =>
      var cfa := CfaRegister(st);
      if cfa.None? then None else Some(WithRule(st, CFA_REG, cfa.value.(v0 := reg)))
    case DefCfaOffset(n) =>
      var cfa := CfaRegister(st);
      if cfa.None? then None else Some(WithRule(st, CFA_REG, cfa.value.(v1 := n)))
    case DefCfaOffsetSf(n) =>
      var cfa := CfaRegister(st);
      if cfa.None? then None else Some(WithRule(st, CFA_REG, cfa.value.(v1 := m.Scaled(n, cie.data_factor))))
    case DefCfaExpression(length, end) => Some(WithRule(st, CFA_REG, Location(ValExpression, length, end)))
    case DefExpression(reg, length, end) => Some(WithRule(st, reg, Location(Expression, length, end)))
    case DefValExpression(reg, length, end) => Some(WithRule(st, reg, Location(ValExpression, length, end)))
    case DefValOffset(reg, n) => Some(WithRule(st, reg, Location(ValOffset, m.Scaled(n, cie.data_factor), 0)))
    case DefValOffsetSf(reg, n) => Some(WithRule(st, reg, Location(ValOffset, m.Scaled(n, cie.data_factor), 0)))
    case NegativeOffsetExtended(reg, n) => Some(WithRule(st, reg, Location(Offset, m.Scaled(n, -1), 0)))
    case NegateRaState =>
      if !m.arm64 then None
      else if RA_SIGN_STATE !in st.locs.rules
      then Some(WithRule(st, RA_SIGN_STATE, Location(PseudoRegister, 1, 0)))
      else
        var loc := st.locs.rules[RA_SIGN_STATE];
        Some(WithRule(st, RA_SIGN_STATE, loc.(v0 := if loc.v0 % 2 == 0 then loc.v0 + 1 else loc.v0 - 1)))
    case Illegal => None
  }

  /** The state in which an instruction runs: its location starts a row. */
  function Marked(st: State): State {
    st.(locs := st.locs.(pc_start := st.cur_pc))
  }

  /** Runs `insns[i..]` until the location passes `pc`. */
  function Run(m: Machine, fde: Fde, cie_rules: Option<Rules>, insns: seq<Insn>, pc: nat, i: nat,
               st: State): Option<State>
    requires m.Valid() && i <= |insns|
    decreases |insns| - i
  {
    if st.cur_pc > pc then Some(st.(locs := st.locs.(pc_end := st.cur_pc)))
    else if i == |insns| then Some(st.(locs := st.locs.(pc_end := fde.pc_end)))
    else
      var st' := Exec(m, fde.cie, cie_rules, insns[i], Marked(st));
      if st'.None? then None else Run(m, fde, cie_rules, insns, pc, i + 1, st'.value)
  }

  /** The state in which the instructions of a CIE or FDE start. */
  function Start(fde: Fde, cie_rules: Option<Rules>, locs: Locations, stack: seq<Locations>): State {
    var rules := if cie_rules.None? then locs.rules else locs.rules + cie_rules.value;
    State(fde.pc_start, locs.(rules := rules, pc_start := fde.pc_start), stack)
  }

  const NoLocations := Locations(map[], 0, 0)

  /** The CIE's instructions, run for this FDE. */
  function RunCie(m: Machine, fde: Fde, pc: nat): Option<State>
    requires m.Valid()
  {
    Run(m, fde, None, fde.cie.insns, pc, 0, Start(fde, None, NoLocations, []))
  }

  /** The rules at `pc`, interpreted from scratch: first the CIE's instructions, then the FDE's. */
  function Interpret(m: Machine, fde: Fde, pc: nat): Option<Locations>
    requires m.Valid()
  {
    var cie := RunCie(m, fde, pc);
    if cie.None? then None else
    var rules := Some(cie.value.locs.rules);
    var r := Run(m, fde, rules, fde.insns, pc, 0, Start(fde, rules, cie.value.locs, cie.value.stack));
    if r.None? then None else Some(r.value.locs)
  }
}
