/**
 The rows of the call frame interpreter: the ranges of pcs that get the same
 rules, and exactly when the range that is recorded with the rules is right.
 */
module CfaRows {
  import opened CieRuns
  import opened DwarfCfa
  import opened OrderedKeys
  import opened WordSizes

  // ----- where the location goes

  function NextLocation(m: Machine, cie: Cie, insn: Insn, loc: nat): nat
    requires m.Valid()
  {
    match insn
    case SetLoc(pc) => pc % m.modulus
    case AdvanceLoc(n) => (loc + n * cie.code_factor) % m.modulus
    case _ => loc
  }

  /** From `loc` on, the location never decreases and never leaves the FDE. */
  predicate Steady(m: Machine, fde: Fde, i: nat, loc: nat)
    requires m.Valid() && i <= |fde.insns|
    decreases |fde.insns| - i
  {
    i == |fde.insns| ||
    var next := NextLocation(m, fde.cie, fde.insns[i], loc);
    loc <= next <= fde.pc_end && Steady(m, fde, i + 1, next)
  }

  /** From `loc` on, the location stays in the FDE. */
  predicate Inside(m: Machine, fde: Fde, i: nat, loc: nat)
    requires m.Valid() && i <= |fde.insns|
    decreases |fde.insns| - i
  {
    i == |fde.insns| ||
    var next := NextLocation(m, fde.cie, fde.insns[i], loc);
    fde.pc_start <= next <= fde.pc_end && Inside(m, fde, i + 1, next)
  }

  /** The location after all instructions. */
  function LastLocation(m: Machine, fde: Fde, i: nat, loc: nat): nat
    requires m.Valid() && i <= |fde.insns|
    decreases |fde.insns| - i
  {
    if i == |fde.insns| then loc else LastLocation(m, fde, i + 1, NextLocation(m, fde.cie, fde.insns[i], loc))
  }

  lemma {:induction false} SteadyGoesOn(m: Machine, fde: Fde, i: nat, loc: nat)
    requires m.Valid() && i <= |fde.insns| && fde.pc_start <= loc <= fde.pc_end && Steady(m, fde, i, loc)
    ensures loc <= LastLocation(m, fde, i, loc) <= fde.pc_end && Inside(m, fde, i, loc)
    decreases |fde.insns| - i
  {
    if i < |fde.insns| {
      SteadyGoesOn(m, fde, i + 1, NextLocation(m, fde.cie, fde.insns[i], loc));
    }
  }

  predicate Covers(fde: Fde, pc: nat) {
    fde.pc_start <= pc < fde.pc_end
  }

  /** An instruction moves the location, or changes the rules, but never both. */
  lemma ExecMoves(m: Machine, cie: Cie, cie_rules: Option<Rules>, insn: Insn, st: State)
    requires m.Valid() && Exec(m, cie, cie_rules, insn, st).Some?
    ensures var st' := Exec(m, cie, cie_rules, insn, st).value;
            st'.cur_pc == NextLocation(m, cie, insn, st.cur_pc) &&
            (st'.cur_pc != st.cur_pc ==> st'.locs == st.locs) &&
            (!(insn.RestoreState? && st.stack != []) ==> st'.locs.pc_start == st.locs.pc_start)
  {
  }

  // ----- rows from some instruction on

  /** The row of `pc` is also the row of every later pc up to its end. */
  lemma {:induction false} RunForward(m: Machine, fde: Fde, cie_rules: Option<Rules>, pc: nat, pc': nat, i: nat,
                                      st: State)
    requires m.Valid() && i <= |fde.insns| && pc <= pc'
    requires var r := Run(m, fde, cie_rules, fde.insns, pc, i, st); r.Some? && pc' < r.value.locs.pc_end
    ensures Run(m, fde, cie_rules, fde.insns, pc', i, st) == Run(m, fde, cie_rules, fde.insns, pc, i, st)
    decreases |fde.insns| - i
  {
    hide Exec;
    if st.cur_pc <= pc && i < |fde.insns| {
      RunForward(m, fde, cie_rules, pc, pc', i + 1, Exec(m, fde.cie, cie_rules, fde.insns[i], Marked(st)).value);
    }
  }

  /** All recorded starts, of the rules and of what is remembered, are between two locations. */
  predicate StartsBetween(lo: nat, hi: nat, st: State) {
    lo <= st.locs.pc_start <= hi && forall k :: 0 <= k < |st.stack| ==> lo <= st.stack[k].pc_start <= hi
  }

  /** The row of a pc lies in the FDE and holds the pc, whatever the instructions are that stay in the FDE. */
  lemma {:induction false} RunInside(m: Machine, fde: Fde, cie_rules: Option<Rules>, pc: nat, i: nat, st: State)
    requires m.Valid() && i <= |fde.insns| && Inside(m, fde, i, st.cur_pc) && Covers(fde, pc)
    requires fde.pc_start <= st.cur_pc <= fde.pc_end && StartsBetween(fde.pc_start, pc, st)
    ensures var r := Run(m, fde, cie_rules, fde.insns, pc, i, st);
            r.Some? ==> fde.pc_start <= r.value.locs.pc_start <= pc < r.value.locs.pc_end <= fde.pc_end
    decreases |fde.insns| - i
  {
    if st.cur_pc <= pc && i < |fde.insns| {
      var next := Exec(m, fde.cie, cie_rules, fde.insns[i], Marked(st));
      if next.Some? {
        ExecMoves(m, fde.cie, cie_rules, fde.insns[i], Marked(st));
        StartsStay(m, fde.cie, cie_rules, fde.insns[i], fde.pc_start, pc, Marked(st));
        RunInside(m, fde, cie_rules, pc, i + 1, next.value);
      }
    }
  }

  lemma StartsStay(m: Machine, cie: Cie, cie_rules: Option<Rules>, insn: Insn, lo: nat, hi: nat, st: State)
    requires m.Valid() && StartsBetween(lo, hi, st) && Exec(m, cie, cie_rules, insn, st).Some?
    ensures StartsBetween(lo, hi, Exec(m, cie, cie_rules, insn, st).value)
  {
  }

  /** The run for `pc` comes to the end of the instructions, and the last one restores a remembered state. */
  predicate EndsRestored(m: Machine, fde: Fde, cie_rules: Option<Rules>, pc: nat, i: nat, st: State)
    requires m.Valid() && i <= |fde.insns|
    decreases |fde.insns| - i
  {
    && st.cur_pc <= pc && i < |fde.insns|
    && if i + 1 == |fde.insns| then fde.insns[i].RestoreState? && st.stack != []
       else var next := Exec(m, fde.cie, cie_rules, fde.insns[i], Marked(st));
            next.Some? && EndsRestored(m, fde, cie_rules, pc, i + 1, next.value)
  }

  /** Unless a state is restored at the very end, a row starts no earlier than where the search for it began. */
  lemma {:induction false} RowStarts(m: Machine, fde: Fde, cie_rules: Option<Rules>, pc: nat, i: nat, st: State)
    requires m.Valid() && i < |fde.insns| && Steady(m, fde, i, st.cur_pc) && !EndsRestored(m, fde, cie_rules, pc, i, st)
    requires st.cur_pc <= pc < fde.pc_end
    requires Run(m, fde, cie_rules, fde.insns, pc, i, st).Some?
    ensures var r := Run(m, fde, cie_rules, fde.insns, pc, i, st).value.locs;
            st.cur_pc <= r.pc_start <= pc < r.pc_end <= fde.pc_end
    decreases |fde.insns| - i
  {
    ExecMoves(m, fde.cie, cie_rules, fde.insns[i], Marked(st));
    var st2 := Exec(m, fde.cie, cie_rules, fde.insns[i], Marked(st)).value;
    if st2.cur_pc <= pc && i + 1 < |fde.insns| {
      RowStarts(m, fde, cie_rules, pc, i + 1, st2);
    }
  }

  /** Unless a state is restored at the very end, every pc of a row gets the same rules and the same start. */
  lemma {:induction false} RowIsUniform(m: Machine, fde: Fde, cie_rules: Option<Rules>, pc: nat, pc': nat, i: nat,
                                        st: State)
    requires m.Valid() && i <= |fde.insns| && Steady(m, fde, i, st.cur_pc)
             && !EndsRestored(m, fde, cie_rules, pc, i, st)
    requires st.cur_pc <= pc < fde.pc_end && st.cur_pc <= pc'
    requires var r := Run(m, fde, cie_rules, fde.insns, pc, i, st);
             r.Some? && r.value.locs.pc_start <= pc' < r.value.locs.pc_end
    ensures var r := Run(m, fde, cie_rules, fde.insns, pc, i, st).value.locs;
            var r' := Run(m, fde, cie_rules, fde.insns, pc', i, st);
            r'.Some? && r'.value.locs.rules == r.rules && r'.value.locs.pc_start == r.pc_start
    decreases |fde.insns| - i
  {
    if i < |fde.insns| {
      ExecMoves(m, fde.cie, cie_rules, fde.insns[i], Marked(st));
      var st2 := Exec(m, fde.cie, cie_rules, fde.insns[i], Marked(st)).value;
      hide Exec;
      if st2.cur_pc <= pc {
        if i + 1 < |fde.insns| {
          RowStarts(m, fde, cie_rules, pc, i + 1, st2);
        }
        if st2.cur_pc <= pc' {
          RowIsUniform(m, fde, cie_rules, pc, pc', i + 1, st2);
        }
      }
    }
  }

  /** The run stops before the end of the instructions for pcs before the last location, and only for them. */
  lemma {:induction false} StopsBefore(m: Machine, fde: Fde, cie_rules: Option<Rules>, pc: nat, i: nat, st: State)
    requires m.Valid() && i <= |fde.insns| && Steady(m, fde, i, st.cur_pc)
    ensures pc < LastLocation(m, fde, i, st.cur_pc) ==> !EndsRestored(m, fde, cie_rules, pc, i, st)
    ensures pc >= LastLocation(m, fde, i, st.cur_pc) && st.cur_pc <= pc ==>
              var r := Run(m, fde, cie_rules, fde.insns, pc, i, st); r.Some? ==> r.value.locs.pc_end == fde.pc_end
    decreases |fde.insns| - i
  {
    if i < |fde.insns| && st.cur_pc <= pc {
      var next := Exec(m, fde.cie, cie_rules, fde.insns[i], Marked(st));
      if next.Some? {
        ExecMoves(m, fde.cie, cie_rules, fde.insns[i], Marked(st));
        hide Exec;
        StopsBefore(m, fde, cie_rules, pc, i + 1, next.value);
        Passes(m, fde, i + 1, next.value.cur_pc);
      }
    }
  }

  lemma {:induction false} Passes(m: Machine, fde: Fde, i: nat, loc: nat)
    requires m.Valid() && i <= |fde.insns| && Steady(m, fde, i, loc)
    ensures loc <= LastLocation(m, fde, i, loc)
    decreases |fde.insns| - i
  {
    if i < |fde.insns| { Passes(m, fde, i + 1, NextLocation(m, fde.cie, fde.insns[i], loc)); }
  }

  // ----- what a state restored at the end asks for

  /** Whenever the location moves on to somewhere after `s`, the rules are the given ones. */
  predicate Bare(m: Machine, fde: Fde, cie_rules: Option<Rules>, i: nat, st: State, s: nat, rules: Rules)
    requires m.Valid() && i <= |fde.insns|
    decreases |fde.insns| - i
  {
    i == |fde.insns| ||
    var next := Exec(m, fde.cie, cie_rules, fde.insns[i], Marked(st));
    next.None? ||
    (&& (st.cur_pc < next.value.cur_pc && s < next.value.cur_pc ==> st.locs.rules == rules)
     && Bare(m, fde, cie_rules, i + 1, next.value, s, rules))
  }

  predicate RunHas(m: Machine, fde: Fde, cie_rules: Option<Rules>, pc: nat, i: nat, st: State, rules: Rules)
    requires m.Valid() && i <= |fde.insns|
  {
    var r := Run(m, fde, cie_rules, fde.insns, pc, i, st);
    r.Some? && r.value.locs.rules == rules
  }

  /** The check of the instructions says exactly which rules the pcs before the last location get. */
  lemma {:induction false} BareMeans(m: Machine, fde: Fde, cie_rules: Option<Rules>, i: nat, st: State, s: nat,
                                     rules: Rules)
    requires m.Valid() && i <= |fde.insns| && Steady(m, fde, i, st.cur_pc)
    requires Run(m, fde, cie_rules, fde.insns, LastLocation(m, fde, i, st.cur_pc), i, st).Some?
    ensures Bare(m, fde, cie_rules, i, st, s, rules) <==>
            forall pc :: s <= pc && st.cur_pc <= pc < LastLocation(m, fde, i, st.cur_pc) ==>
              RunHas(m, fde, cie_rules, pc, i, st, rules)
    decreases |fde.insns| - i
  {
    var last := LastLocation(m, fde, i, st.cur_pc);
    Passes(m, fde, i, st.cur_pc);
    if i < |fde.insns| {
      var insn := fde.insns[i];
      var st2 := Exec(m, fde.cie, cie_rules, insn, Marked(st)).value;
      ExecMoves(m, fde.cie, cie_rules, insn, Marked(st));
      hide Exec;
      Passes(m, fde, i + 1, st2.cur_pc);
      BareMeans(m, fde, cie_rules, i + 1, st2, s, rules);
      BareStep(m, fde, cie_rules, i, i + 1, st, st2, s, rules, last);
    }
  }

  lemma BareStep(m: Machine, fde: Fde, cie_rules: Option<Rules>, i: nat, j: nat, st: State, st2: State, s: nat,
                 rules: Rules, last: nat)
    requires m.Valid() && i < j == i + 1 <= |fde.insns|
             && Exec(m, fde.cie, cie_rules, fde.insns[i], Marked(st)) == Some(st2)
    requires st.cur_pc <= st2.cur_pc <= last && (st.cur_pc < st2.cur_pc ==> st2.locs.rules == st.locs.rules)
    ensures (&& (st.cur_pc < st2.cur_pc && s < st2.cur_pc ==> st.locs.rules == rules)
             && (forall pc :: s <= pc && st2.cur_pc <= pc < last ==> RunHas(m, fde, cie_rules, pc, j, st2, rules)))
       <==> forall pc :: s <= pc && st.cur_pc <= pc < last ==> RunHas(m, fde, cie_rules, pc, i, st, rules)
  {
    hide Exec;
    forall pc | st2.cur_pc <= pc < last
      ensures RunHas(m, fde, cie_rules, pc, i, st, rules) <==> RunHas(m, fde, cie_rules, pc, j, st2, rules)
    {
    }
    forall pc | st.cur_pc <= pc < st2.cur_pc
      ensures RunHas(m, fde, cie_rules, pc, i, st, rules) <==> st.locs.rules == rules
    {
      assert Run(m, fde, cie_rules, fde.insns, pc, j, st2) == Some(st2.(locs := st2.locs.(pc_end := st2.cur_pc)));
    }
    if st.cur_pc < st2.cur_pc && s < st2.cur_pc {
      var pc := st2.cur_pc - 1;
      assert RunHas(m, fde, cie_rules, pc, i, st, rules) <==> st.locs.rules == rules;
    }
  }

  lemma {:induction false} NothingAfter(m: Machine, fde: Fde, cie_rules: Option<Rules>, i: nat, st: State, s: nat,
                                        rules: Rules)
    requires m.Valid() && i <= |fde.insns| && Steady(m, fde, i, st.cur_pc) && LastLocation(m, fde, i, st.cur_pc) <= s
    ensures Bare(m, fde, cie_rules, i, st, s, rules)
    decreases |fde.insns| - i
  {
    if i < |fde.insns| {
      var next := Exec(m, fde.cie, cie_rules, fde.insns[i], Marked(st));
      if next.Some? {
        ExecMoves(m, fde.cie, cie_rules, fde.insns[i], Marked(st));
        hide Exec;
        Passes(m, fde, i + 1, next.value.cur_pc);
        NothingAfter(m, fde, cie_rules, i + 1, next.value, s, rules);
      }
    }
  }

  // ----- rows of an FDE

  /** The state after the CIE, and the one in which the FDE starts. */
  function AfterCie(m: Machine, fde: Fde): Option<State>
    requires m.Valid()
  {
    RunCie(m, fde, fde.pc_start)
  }

  function FdeStart(fde: Fde, cie: State): State {
    Start(fde, Some(cie.locs.rules), cie.locs, cie.stack)
  }

  function RunFde(m: Machine, fde: Fde, cie: State, pc: nat): Option<State>
    requires m.Valid()
  {
    Run(m, fde, Some(cie.locs.rules), fde.insns, pc, 0, FdeStart(fde, cie))
  }

  /** With a quiet CIE, only the instructions of the FDE look at the pc. */
  lemma InterpretIs(m: Machine, fde: Fde, pc: nat)
    requires m.Valid() && Quiet(m, fde.cie) && fde.pc_start <= pc
    ensures var cie := AfterCie(m, fde);
            && (cie.Some? ==> cie.value.stack == [])
            && Interpret(m, fde, pc) == if cie.None? then None else
                                        var r := RunFde(m, fde, cie.value, pc);
                                        if r.None? then None else Some(r.value.locs)
  {
    hide Run, Quiet;
    QuietMeans(m, fde, fde, pc, fde.pc_start);
    if AfterCie(m, fde).Some? {
      var rules, cie := Some(AfterCie(m, fde).value.locs.rules), RunCie(m, fde, pc).value;
      RunSimilar(m, fde, rules, fde.insns, pc, 0, Start(fde, rules, cie.locs, []),
                 FdeStart(fde, AfterCie(m, fde).value));
    }
  }

  /** A row lies in its FDE and holds its pc. */
  lemma RowInFde(m: Machine, fde: Fde, pc: nat)
    requires m.Valid() && Quiet(m, fde.cie) && Inside(m, fde, 0, fde.pc_start) && Covers(fde, pc)
             && Interpret(m, fde, pc).Some?
    ensures var r := Interpret(m, fde, pc).value; fde.pc_start <= r.pc_start <= pc < r.pc_end <= fde.pc_end
  {
    hide Run, Inside, Interpret;
    InterpretIs(m, fde, pc);
    var cie := AfterCie(m, fde).value;
    RunInside(m, fde, Some(cie.locs.rules), pc, 0, FdeStart(fde, cie));
  }

  /** The row of a pc is also the row of every later pc up to its end. */
  lemma RowForward(m: Machine, fde: Fde, pc: nat, pc': nat)
    requires m.Valid() && Quiet(m, fde.cie) && fde.pc_start <= pc <= pc'
    requires Interpret(m, fde, pc).Some? && pc' < Interpret(m, fde, pc).value.pc_end
    ensures Interpret(m, fde, pc') == Interpret(m, fde, pc)
  {
    hide Run, Interpret;
    InterpretIs(m, fde, pc);
    InterpretIs(m, fde, pc');
    var cie := AfterCie(m, fde).value;
    RunForward(m, fde, Some(cie.locs.rules), pc, pc', 0, FdeStart(fde, cie));
  }

  predicate HasRules(found: Option<Locations>, rules: Rules) {
    found.Some? && found.value.rules == rules
  }

  /** The rules found for `pc` are right for every pc of the range that is recorded with them. */
  ghost predicate RowHolds(m: Machine, fde: Fde, pc: nat)
    requires m.Valid()
  {
    var r := Interpret(m, fde, pc);
    r.Some? ==> forall pc' :: r.value.pc_start <= pc' < r.value.pc_end ==>
      HasRules(Interpret(m, fde, pc'), r.value.rules)
  }

  ghost predicate RowsHold(m: Machine, fde: Fde)
    requires m.Valid()
  {
    forall pc :: Covers(fde, pc) ==> RowHolds(m, fde, pc)
  }

  /** The instructions end with a restored state, at a location inside the FDE. */
  predicate Overhangs(m: Machine, fde: Fde)
    requires m.Valid()
  {
    var cie, last := AfterCie(m, fde), LastLocation(m, fde, 0, fde.pc_start);
    && cie.Some? && last < fde.pc_end
    && EndsRestored(m, fde, Some(cie.value.locs.rules), last, 0, FdeStart(fde, cie.value))
  }

  /** If the instructions end with a restored state, all rows from the remembered start on have the remembered rules. */
  predicate RestoresRight(m: Machine, fde: Fde)
    requires m.Valid()
  {
    Overhangs(m, fde) ==>
      var cie := AfterCie(m, fde).value;
      var r := RunFde(m, fde, cie, LastLocation(m, fde, 0, fde.pc_start));
      r.Some? ==> Bare(m, fde, Some(cie.locs.rules), 0, FdeStart(fde, cie), r.value.locs.pc_start, r.value.locs.rules)
  }

  /** The FDE has pcs, its location only grows and stays inside, and its CIE is quiet. */
  predicate Regular(m: Machine, fde: Fde)
    requires m.Valid()
  {
    fde.pc_start < fde.pc_end && Steady(m, fde, 0, fde.pc_start) && Quiet(m, fde.cie)
  }

  /**
   The row of a pc, unless the instructions end with a restored state and the pc is not
   before their last location.
   */
  lemma UsualRow(m: Machine, fde: Fde, pc: nat, pc': nat)
    requires m.Valid() && Regular(m, fde) && Covers(fde, pc) && Interpret(m, fde, pc).Some?
    requires pc < LastLocation(m, fde, 0, fde.pc_start)
             || (pc == LastLocation(m, fde, 0, fde.pc_start) && !Overhangs(m, fde))
    requires Interpret(m, fde, pc).value.pc_start <= pc' < Interpret(m, fde, pc).value.pc_end
    ensures var r, r' := Interpret(m, fde, pc).value, Interpret(m, fde, pc');
            r'.Some? && r'.value.rules == r.rules && r'.value.pc_start == r.pc_start
  {
    hide Run, Interpret, LastLocation, EndsRestored, Steady, Inside;
    InterpretIs(m, fde, pc);
    var cie := AfterCie(m, fde).value;
    SteadyGoesOn(m, fde, 0, fde.pc_start);
    RowInFde(m, fde, pc);
    InterpretIs(m, fde, pc');
    var rules, st := Some(cie.locs.rules), FdeStart(fde, cie);
    StopsBefore(m, fde, rules, pc, 0, st);
    RowIsUniform(m, fde, rules, pc, pc', 0, st);
  }

  /** From the last location on there is one row, up to the end of the FDE. */
  lemma LastRow(m: Machine, fde: Fde, pc: nat)
    requires m.Valid() && Regular(m, fde) && LastLocation(m, fde, 0, fde.pc_start) <= pc < fde.pc_end
    ensures var last := LastLocation(m, fde, 0, fde.pc_start);
            && fde.pc_start <= last
            && (Interpret(m, fde, pc).Some? <==> Interpret(m, fde, last).Some?)
            && (Interpret(m, fde, last).Some? ==>
                  && Interpret(m, fde, pc) == Interpret(m, fde, last)
                  && Interpret(m, fde, last).value.pc_end == fde.pc_end)
  {
    hide Run, Interpret, LastLocation, Steady, Inside;
    var last := LastLocation(m, fde, 0, fde.pc_start);
    SteadyGoesOn(m, fde, 0, fde.pc_start);
    InterpretIs(m, fde, pc);
    InterpretIs(m, fde, last);
    var cie := AfterCie(m, fde);
    if cie.Some? {
      StopsBefore(m, fde, Some(cie.value.locs.rules), last, 0, FdeStart(fde, cie.value));
      if Interpret(m, fde, last).Some? {
        RowForward(m, fde, last, pc);
      }
      FailsLater(m, fde, Some(cie.value.locs.rules), last, pc, 0, FdeStart(fde, cie.value));
    }
  }

  /** If the run for a pc fails, so does the run for a later one. */
  lemma {:induction false} FailsLater(m: Machine, fde: Fde, cie_rules: Option<Rules>, pc: nat, pc': nat, i: nat,
                                      st: State)
    requires m.Valid() && i <= |fde.insns| && pc <= pc'
    ensures Run(m, fde, cie_rules, fde.insns, pc, i, st).None? ==> Run(m, fde, cie_rules, fde.insns, pc', i, st).None?
    decreases |fde.insns| - i
  {
    hide Exec;
    if st.cur_pc <= pc && i < |fde.insns| {
      var next := Exec(m, fde.cie, cie_rules, fde.insns[i], Marked(st));
      if next.Some? { FailsLater(m, fde, cie_rules, pc, pc', i + 1, next.value); }
    }
  }

  /**
   The last row reaches back to pcs before the last location; their rules are the ones
   that `RestoresRight` checks.
   */
  lemma OverhangIs(m: Machine, fde: Fde)
    requires m.Valid() && Regular(m, fde) && Overhangs(m, fde)
    ensures var last := LastLocation(m, fde, 0, fde.pc_start);
            && Covers(fde, last)
            && (Interpret(m, fde, last).Some? ==>
                  var row := Interpret(m, fde, last).value;
                  && row.pc_end == fde.pc_end && fde.pc_start <= row.pc_start <= last
                  && (RestoresRight(m, fde) <==>
                      forall pc :: row.pc_start <= pc < last ==> HasRules(Interpret(m, fde, pc), row.rules)))
            && (Interpret(m, fde, last).None? ==> RestoresRight(m, fde))
  {
    hide Run, Interpret, LastLocation, EndsRestored, Steady, Inside, Bare;
    var last := LastLocation(m, fde, 0, fde.pc_start);
    SteadyGoesOn(m, fde, 0, fde.pc_start);
    LastRow(m, fde, last);
    InterpretIs(m, fde, last);
    var cie := AfterCie(m, fde).value;
    var rules, st := Some(cie.locs.rules), FdeStart(fde, cie);
    if Interpret(m, fde, last).Some? {
      RowInFde(m, fde, last);
      var row := Interpret(m, fde, last).value;
      BareMeans(m, fde, rules, 0, st, row.pc_start, row.rules);
      forall pc | fde.pc_start <= pc < last
        ensures HasRules(Interpret(m, fde, pc), row.rules) <==> RunHas(m, fde, rules, pc, 0, st, row.rules)
      {
        InterpretIs(m, fde, pc);
      }
    }
  }

  /** All recorded ranges are right if and only if a state restored at the end finds its own rules from its start on. */
  lemma RowsHoldExactly(m: Machine, fde: Fde)
    requires m.Valid() && Regular(m, fde)
    ensures RowsHold(m, fde) <==> RestoresRight(m, fde)
  {
    hide Run, Interpret, LastLocation, EndsRestored, Steady, Inside, Bare, RestoresRight, Overhangs;
    var last := LastLocation(m, fde, 0, fde.pc_start);
    SteadyGoesOn(m, fde, 0, fde.pc_start);
    if Overhangs(m, fde) {
      OverhangIs(m, fde);
      if RowsHold(m, fde) { assert RowHolds(m, fde, last); }
    } else {
      assert RestoresRight(m, fde) by { NoOverhang(m, fde); }
    }
    if RestoresRight(m, fde) {
      forall pc | Covers(fde, pc)
        ensures RowHolds(m, fde, pc)
      {
        RowIsRight(m, fde, pc);
      }
    }
  }

  lemma NoOverhang(m: Machine, fde: Fde)
    requires m.Valid() && !Overhangs(m, fde)
    ensures RestoresRight(m, fde)
  {
    hide Overhangs;
  }

  lemma RowIsRight(m: Machine, fde: Fde, pc: nat)
    requires m.Valid() && Regular(m, fde) && RestoresRight(m, fde) && Covers(fde, pc)
    ensures RowHolds(m, fde, pc)
  {
    hide Run, Interpret, LastLocation, EndsRestored, Steady, Inside, Bare, RestoresRight, Overhangs;
    var last := LastLocation(m, fde, 0, fde.pc_start);
    SteadyGoesOn(m, fde, 0, fde.pc_start);
    if Interpret(m, fde, pc).Some? {
      var row := Interpret(m, fde, pc).value;
      if last <= pc { LastRow(m, fde, pc); }
      if Overhangs(m, fde) { OverhangIs(m, fde); }
      forall pc' | row.pc_start <= pc' < row.pc_end
        ensures HasRules(Interpret(m, fde, pc'), row.rules)
      {
        if pc < last || !Overhangs(m, fde) {
          UsualRow(m, fde, if pc < last then pc else last, pc');
        } else if last <= pc' {
          LastRow(m, fde, pc');
        }
      }
    }
  }

  /** The simplest case in which a state restored at the end is right: it was remembered where it is restored. */
  lemma RestoredInPlace(m: Machine, fde: Fde)
    requires m.Valid() && Regular(m, fde)
    requires var r := Interpret(m, fde, LastLocation(m, fde, 0, fde.pc_start));
             r.Some? ==> r.value.pc_start == LastLocation(m, fde, 0, fde.pc_start)
    ensures RestoresRight(m, fde)
  {
    hide Run, Interpret, LastLocation, EndsRestored, Steady, Inside, Bare;
    if Overhangs(m, fde) {
      var last := LastLocation(m, fde, 0, fde.pc_start);
      SteadyGoesOn(m, fde, 0, fde.pc_start);
      InterpretIs(m, fde, last);
      var cie := AfterCie(m, fde).value;
      var r := RunFde(m, fde, cie, last);
      if r.Some? {
        NothingAfter(m, fde, Some(cie.locs.rules), 0, FdeStart(fde, cie), last, r.value.locs.rules);
      }
    }
  }

  /** If it is not, the row found at the last location is recorded for an earlier pc that has other rules. */
  lemma TrailingRestoreIsStale(m: Machine, fde: Fde) returns (pc: nat)
    requires m.Valid() && Regular(m, fde) && !RestoresRight(m, fde)
    ensures var last := LastLocation(m, fde, 0, fde.pc_start);
            && Covers(fde, last) && Interpret(m, fde, last).Some?
            && var row := Interpret(m, fde, last).value;
               && row.pc_start <= pc < last < row.pc_end && fde.pc_start <= pc
               && !HasRules(Interpret(m, fde, pc), row.rules)
  {
    hide Run, Interpret, LastLocation, EndsRestored, Steady, Inside, Bare, RestoresRight, Overhangs;
    if !Overhangs(m, fde) { NoOverhang(m, fde); }
    OverhangIs(m, fde);
    var row := Interpret(m, fde, LastLocation(m, fde, 0, fde.pc_start)).value;
    pc :| row.pc_start <= pc < LastLocation(m, fde, 0, fde.pc_start) && !HasRules(Interpret(m, fde, pc), row.rules);
  }

  /** Such an FDE. */
  const Trailing: Fde :=
    Fde(0, 16, 0, Cie(1, 1, []), [RememberState, AdvanceLoc(4), MarkUndefined(5), AdvanceLoc(4), RestoreState])

  lemma TrailingExample()
    ensures var m := Machine(TWO_64, false); m.Valid() && Regular(m, Trailing) && !RestoresRight(m, Trailing)
  {
    hide Quiet, RestoresRight, Interpret;
    var m := Machine(TWO_64, false);
    assert Regular(m, Trailing) by { PlainIsQuiet(m, Trailing.cie); }
    StaleRow();
    RowsHoldExactly(m, Trailing);
    assert !HasRules(Interpret(m, Trailing, 5), Interpret(m, Trailing, 9).value.rules);
    assert Covers(Trailing, 9) && !RowHolds(m, Trailing, 9);
  }

  lemma StaleRow()
    ensures var m := Machine(TWO_64, false);
            var r9, r5 := Interpret(m, Trailing, 9), Interpret(m, Trailing, 5);
            r9.Some? && r5.Some? && r9.value.pc_start <= 5 < r9.value.pc_end && r5.value.rules != r9.value.rules
  {
    var m := Machine(TWO_64, false);
    var st0 := State(0, Locations(map[], 0, 0), []);
    assert RunCie(m, Trailing, 9) == Some(st0.(locs := Locations(map[], 0, 16)));
    assert RunCie(m, Trailing, 5) == Some(st0.(locs := Locations(map[], 0, 16)));
    var l0 := Locations(map[], 0, 16);
    var rules := Some(map[]);
    var undef := map[5 := Location(Undefined, 0, 0)];
    assert Start(Trailing, rules, l0, []) == State(0, l0, []);
    var s4 := State(8, Locations(undef, 4, 16), [l0]);
    var s3 := State(4, Locations(undef, 4, 16), [l0]);
    var s2 := State(4, Locations(map[], 0, 16), [l0]);
    var s1 := State(0, l0, [l0]);
    assert Run(m, Trailing, rules, Trailing.insns, 9, 5, State(8, l0, [])) == Some(State(8, l0, []));
    assert s4.stack[1..] == [];
    assert Run(m, Trailing, rules, Trailing.insns, 9, 4, s4) == Some(State(8, l0, []));
    assert Run(m, Trailing, rules, Trailing.insns, 9, 3, s3) == Some(State(8, l0, []));
    assert Run(m, Trailing, rules, Trailing.insns, 9, 2, s2) == Some(State(8, l0, []));
    assert Run(m, Trailing, rules, Trailing.insns, 9, 1, s1) == Some(State(8, l0, []));
    assert Run(m, Trailing, rules, Trailing.insns, 9, 0, State(0, l0, [])) == Some(State(8, l0, []));
    var found := Some(State(8, Locations(undef, 4, 8), [l0]));
    assert Run(m, Trailing, rules, Trailing.insns, 5, 4, s4) == found;
    assert Run(m, Trailing, rules, Trailing.insns, 5, 3, s3) == found;
    assert Run(m, Trailing, rules, Trailing.insns, 5, 2, s2) == found;
    assert Run(m, Trailing, rules, Trailing.insns, 5, 1, s1) == found;
    assert 5 in undef;
  }
}
