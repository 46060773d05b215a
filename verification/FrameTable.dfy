/**
 Call frame instructions as a table: lines that move the location and then change
 rules.  The rules at a pc are those after all lines up to it, and no others.
 */
module FrameTable {
  import opened CieRuns
  import opened DwarfCfa
  import opened OrderedKeys
  import opened WordSizes

  /** A line of the table: the location is advanced, or set, and then rules change. */
  datatype Line = Advance(n: nat, changes: seq<Insn>) | Set(loc: nat, changes: seq<Insn>)

  /** The instruction does not move the location. */
  predicate Still(insn: Insn) {
    !insn.AdvanceLoc? && !insn.SetLoc?
  }

  predicate AllStill(insns: seq<Insn>) {
    forall insn :: insn in insns ==> Still(insn)
  }

  /** The instructions of the lines. */
  function Insns(lines: seq<Line>): seq<Insn> {
    if lines == [] then []
    else [if lines[0].Advance? then AdvanceLoc(lines[0].n)
          else SetLoc(lines[0].loc)] + (lines[0].changes + Insns(lines[1..]))
  }

  /** Where a line starts that comes after `loc`. */
  function LineStart(factor: nat, loc: nat, line: Line): nat {
    if line.Advance? then loc + line.n * factor else line.loc
  }

  /** The lines come in order, below `limit`, and change rules only. */
  predicate InOrder(factor: nat, loc: nat, lines: seq<Line>, limit: nat)
    decreases |lines|
  {
    lines != [] ==>
      && AllStill(lines[0].changes) && loc <= LineStart(factor, loc, lines[0]) < limit
      && InOrder(factor, LineStart(factor, loc, lines[0]), lines[1..], limit)
  }

  /** All changes up to `pc`. */
  function ChangesUpTo(factor: nat, loc: nat, lines: seq<Line>, pc: nat): seq<Insn>
    decreases |lines|
  {
    if lines == [] || LineStart(factor, loc, lines[0]) > pc then []
    else lines[0].changes + ChangesUpTo(factor, LineStart(factor, loc, lines[0]), lines[1..], pc)
  }

  /** The instructions one after the other, wherever they are. */
  function Applied(m: Machine, cie: Cie, cie_rules: Option<Rules>, insns: seq<Insn>, st: State): Option<State>
    requires m.Valid()
  {
    if insns == [] then Some(st)
    else
      var next := Exec(m, cie, cie_rules, insns[0], st);
      if next.None? then None else Applied(m, cie, cie_rules, insns[1..], next.value)
  }

  lemma {:induction false} AppliedBoth(m: Machine, cie: Cie, cie_rules: Option<Rules>, a: seq<Insn>, b: seq<Insn>,
                                       st: State)
    requires m.Valid()
    ensures var first := Applied(m, cie, cie_rules, a, st);
            Applied(m, cie, cie_rules, a + b, st) ==
            if first.None? then None else Applied(m, cie, cie_rules, b, first.value)
    decreases |a|
  {
    hide Exec;
    if a == [] {
      assert a + b == b;
    } else {
      assert (a + b)[1..] == a[1..] + b;
      var next := Exec(m, cie, cie_rules, a[0], st);
      if next.Some? { AppliedBoth(m, cie, cie_rules, a[1..], b, next.value); }
    }
  }

  /** A run gets through instructions that do not move the location. */
  lemma {:induction false} RunsThrough(m: Machine, fde: Fde, cie_rules: Option<Rules>, insns: seq<Insn>, pc: nat,
                                       i: nat, j: nat, st: State, st0: State)
    returns (st': State)
    requires m.Valid() && i <= j <= |insns| && AllStill(insns[i..j]) && st.cur_pc <= pc && Alike(st, st0)
    ensures var r := Applied(m, fde.cie, cie_rules, insns[i..j], st0);
            if r.None? then Run(m, fde, cie_rules, insns, pc, i, st).None?
            else && Run(m, fde, cie_rules, insns, pc, i, st) == Run(m, fde, cie_rules, insns, pc, j, st')
                 && Alike(st', r.value) && st'.cur_pc == st.cur_pc
    decreases j - i
  {
    hide Exec, Alike;
    st' := st;
    if i < j {
      var insn := insns[i];
      assert insns[i..j][0] == insn && insns[i..j][1..] == insns[i + 1..j];
      assert insn in insns[i..j];
      AlikeAnywhere(st, st0);
      AnchoredAlike(m, fde.cie, cie_rules, insn, st, st0);
      var r, r0 := Exec(m, fde.cie, cie_rules, insn, Marked(st)), Exec(m, fde.cie, cie_rules, insn, st0);
      if r.Some? {
        StaysPut(m, fde.cie, cie_rules, insn, Marked(st));
        st' := RunsThrough(m, fde, cie_rules, insns, pc, i + 1, j, r.value, r0.value);
      }
    } else {
      assert insns[i..j] == [];
    }
  }

  lemma AnchoredAlike(m: Machine, cie: Cie, cie_rules: Option<Rules>, insn: Insn, st: State, st0: State)
    requires m.Valid() && Alike(st, st0)
    ensures EndsAs(Exec(m, cie, cie_rules, insn, Marked(st)), Exec(m, cie, cie_rules, insn, st0))
  {
    hide Exec, Alike;
    MarkedAlike(st, st0);
    ExecAlike(m, cie, cie_rules, insn, Marked(st), st0);
  }

  lemma MarkedAlike(a: State, b: State)
    requires Alike(a, b)
    ensures Alike(Marked(a), b)
  {
  }

  lemma StaysPut(m: Machine, cie: Cie, cie_rules: Option<Rules>, insn: Insn, st: State)
    requires m.Valid() && Still(insn) && Exec(m, cie, cie_rules, insn, st).Some?
    ensures Exec(m, cie, cie_rules, insn, st).value.cur_pc == st.cur_pc
  {
  }

  /** The move of a line leads to its start. */
  lemma Moved(m: Machine, cie: Cie, cie_rules: Option<Rules>, line: Line, st: State)
    requires m.Valid() && LineStart(cie.code_factor, st.cur_pc, line) < m.modulus
    ensures var move := if line.Advance? then AdvanceLoc(line.n) else SetLoc(line.loc);
            Exec(m, cie, cie_rules, move, st) == Some(st.(cur_pc := LineStart(cie.code_factor, st.cur_pc, line)))
  {
  }

  /** The run of a table applies the changes of the lines up to `pc`. */
  lemma {:induction false} TableRuns(m: Machine, fde: Fde, cie_rules: Option<Rules>, insns: seq<Insn>, pc: nat, i: nat,
                                     lines: seq<Line>, st: State, st0: State)
    requires m.Valid() && i <= |insns| && insns[i..] == Insns(lines) && st.cur_pc <= pc && Alike(st, st0)
    requires InOrder(fde.cie.code_factor, st.cur_pc, lines, m.modulus)
    ensures EndsAs(Run(m, fde, cie_rules, insns, pc, i, st),
                   Applied(m, fde.cie, cie_rules, ChangesUpTo(fde.cie.code_factor, st.cur_pc, lines, pc), st0))
    decreases |lines|
  {
    hide Exec, Alike;
    AlikeAnywhere(st, st0);
    if lines != [] {
      var line, factor := lines[0], fde.cie.code_factor;
      var j := i + 1 + |line.changes|;
      LineAt(insns, i, lines);
      Moved(m, fde.cie, cie_rules, line, Marked(st));
      var st1 := Marked(st).(cur_pc := LineStart(factor, st.cur_pc, line));
      MovedAlike(st, st0, st1.cur_pc);
      assert Run(m, fde, cie_rules, insns, pc, i, st) == Run(m, fde, cie_rules, insns, pc, i + 1, st1);
      if st1.cur_pc <= pc {
        var st2 := RunsThrough(m, fde, cie_rules, insns, pc, i + 1, j, st1, st0);
        var changes := ChangesUpTo(factor, st1.cur_pc, lines[1..], pc);
        AppliedBoth(m, fde.cie, cie_rules, line.changes, changes, st0);
        var first := Applied(m, fde.cie, cie_rules, line.changes, st0);
        if first.Some? { TableRuns(m, fde, cie_rules, insns, pc, j, lines[1..], st2, first.value); }
      } else {
        AlikeAnywhere(st1, st0);
      }
    }
  }

  lemma MovedAlike(st: State, st0: State, loc: nat)
    requires Alike(st, st0)
    ensures Alike(Marked(st).(cur_pc := loc), st0)
  {
  }

  lemma LineAt(insns: seq<Insn>, i: nat, lines: seq<Line>)
    requires i <= |insns| && insns[i..] == Insns(lines) && lines != []
    ensures var line, j := lines[0], i + 1 + |lines[0].changes|;
            && i < j <= |insns| && insns[i] == (if line.Advance? then AdvanceLoc(line.n) else SetLoc(line.loc))
            && insns[i + 1..j] == line.changes && insns[j..] == Insns(lines[1..])
  {
    SliceParts(insns, i, Insns(lines), lines[0].changes, Insns(lines[1..]));
  }

  lemma SliceParts(insns: seq<Insn>, i: nat, rest: seq<Insn>, a: seq<Insn>, b: seq<Insn>)
    requires i <= |insns| && insns[i..] == rest && rest != [] && rest[1..] == a + b
    ensures var j := i + 1 + |a|; j <= |insns| && insns[i] == rest[0] && insns[i + 1..j] == a && insns[j..] == b
  {
    var j := i + 1 + |a|;
    assert insns[i] == insns[i..][0];
    assert insns[i + 1..j] == insns[i..][1..][..|a|];
    assert insns[j..] == insns[i..][1..][|a|..];
  }

  /** Rules that nothing has been remembered of. */
  function Fresh(rules: Rules): State {
    State(0, Locations(rules, 0, 0), [])
  }

  /**
   The rules at a pc are those of the CIE after the changes of all lines up to
   the pc, and there are none exactly if one of these instructions fails.
   */
  lemma TableMeans(m: Machine, fde: Fde, first: seq<Insn>, lines: seq<Line>, pc: nat)
    requires m.Valid() && Plain(fde.cie) && fde.pc_start <= pc
    requires AllStill(first) && fde.insns == first + Insns(lines)
    requires InOrder(fde.cie.code_factor, fde.pc_start, lines, m.modulus)
    ensures var cie := Applied(m, fde.cie, None, fde.cie.insns, Fresh(map[]));
            if cie.None? then Interpret(m, fde, pc).None?
            else var changes := first + ChangesUpTo(fde.cie.code_factor, fde.pc_start, lines, pc);
                 var r := Applied(m, fde.cie, Some(cie.value.locs.rules), changes, Fresh(cie.value.locs.rules));
                 && (Interpret(m, fde, pc).Some? <==> r.Some?)
                 && (r.Some? ==> Interpret(m, fde, pc).value.rules == r.value.locs.rules)
  {
    hide Run, Applied, Exec;
    CieApplied(m, fde, pc);
    var cie := RunCie(m, fde, pc);
    if cie.Some? {
      var rules, n := cie.value.locs.rules, |first|;
      var st := Start(fde, Some(rules), cie.value.locs, []);
      assert fde.insns[0..n] == first && fde.insns[n..] == Insns(lines);
      var st' := RunsThrough(m, fde, Some(rules), fde.insns, pc, 0, n, st, Fresh(rules));
      var changes := ChangesUpTo(fde.cie.code_factor, fde.pc_start, lines, pc);
      AppliedBoth(m, fde.cie, Some(rules), first, changes, Fresh(rules));
      var r := Applied(m, fde.cie, Some(rules), first, Fresh(rules));
      if r.Some? { TableRuns(m, fde, Some(rules), fde.insns, pc, n, lines, st', r.value); }
    }
  }

  lemma CieApplied(m: Machine, fde: Fde, pc: nat)
    requires m.Valid() && Plain(fde.cie) && fde.pc_start <= pc
    ensures EndsAs(RunCie(m, fde, pc), Applied(m, fde.cie, None, fde.cie.insns, Fresh(map[])))
    ensures RunCie(m, fde, pc).Some? ==> RunCie(m, fde, pc).value.stack == []
  {
    hide Applied, Exec;
    var insns, n := fde.cie.insns, |fde.cie.insns|;
    assert insns[0..n] == insns;
    var st := Start(fde, None, NoLocations, []);
    var st' := RunsThrough(m, fde, None, insns, pc, 0, n, st, Fresh(map[]));
    if RunCie(m, fde, pc).Some? { AlikeAnywhere(st', Applied(m, fde.cie, None, insns, Fresh(map[])).value); }
    PlainIsQuiet(m, fde.cie);
    QuietMeans(m, fde, fde, pc, pc);
  }
}
