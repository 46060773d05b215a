/**
 The instructions of a CIE, whose rules are cached for all FDEs that name it: how
 their run can end, and exactly when the cached rules stand for a run of their own.
 */
module CieRuns {
  import opened Bits
  import opened DwarfCfa
  import opened OrderedKeys
  import opened WordSizes

  // ----- states that look the same

  predicate SameRules(a: Locations, b: Locations) {
    a.rules == b.rules && a.pc_start == b.pc_start
  }

  /** States that differ only in the recorded ends of rows. */
  predicate Similar(a: State, b: State) {
    && a.cur_pc == b.cur_pc && SameRules(a.locs, b.locs) && |a.stack| == |b.stack|
    && forall k :: 0 <= k < |a.stack| ==> SameRules(a.stack[k], b.stack[k])
  }

  lemma ExecSimilar(m: Machine, cie: Cie, cie_rules: Option<Rules>, insn: Insn, a: State, b: State)
    requires m.Valid() && Similar(a, b)
    ensures var a' := Exec(m, cie, cie_rules, insn, a);
            var b' := Exec(m, cie, cie_rules, insn, b);
            (a'.Some? <==> b'.Some?) && (a'.Some? ==> Similar(a'.value, b'.value))
  {
  }

  lemma {:induction false} RunSimilar(m: Machine, fde: Fde, cie_rules: Option<Rules>, insns: seq<Insn>, pc: nat, i: nat,
                                      a: State, b: State)
    requires m.Valid() && i <= |insns| && Similar(a, b)
    ensures var ra := Run(m, fde, cie_rules, insns, pc, i, a);
            var rb := Run(m, fde, cie_rules, insns, pc, i, b);
            (ra.Some? <==> rb.Some?) && (ra.Some? ==> ra.value.locs == rb.value.locs)
    decreases |insns| - i
  {
    if a.cur_pc <= pc && i < |insns| {
      var a1, b1 := Marked(a), Marked(b);
      ExecSimilar(m, fde.cie, cie_rules, insns[i], a1, b1);
      if Exec(m, fde.cie, cie_rules, insns[i], a1).Some? {
        RunSimilar(m, fde, cie_rules, insns, pc, i + 1,
                   Exec(m, fde.cie, cie_rules, insns[i], a1).value, Exec(m, fde.cie, cie_rules, insns[i], b1).value);
      }
    }
  }

  // ----- how the run of a CIE ends

  /** The instruction can move the location on. */
  predicate Moves(m: Machine, cie: Cie, insn: Insn)
    requires m.Valid()
  {
    insn.SetLoc? || (insn.AdvanceLoc? && (insn.n * cie.code_factor) % m.modulus != 0)
  }

  /** The states in which a run can stop, because the location has moved on or the instructions end or one fails. */
  function Endings(m: Machine, cie: Cie, i: nat, st: State): seq<Option<State>>
    requires m.Valid() && i <= |cie.insns|
    decreases |cie.insns| - i
  {
    if i == |cie.insns| then [Some(st)]
    else
      var next := Exec(m, cie, None, cie.insns[i], Marked(st));
      if next.None? then [None]
      else (if Moves(m, cie, cie.insns[i]) then [next] else []) + Endings(m, cie, i + 1, next.value)
  }

  const Blank := State(0, NoLocations, [])

  /** The same rules, and the same rules remembered, wherever they are. */
  predicate Alike(a: State, b: State) {
    && a.locs.rules == b.locs.rules && |a.stack| == |b.stack|
    && forall k :: 0 <= k < |a.stack| ==> a.stack[k].rules == b.stack[k].rules
  }

  predicate EndsAs(r: Option<State>, ending: Option<State>) {
    (r.Some? <==> ending.Some?) && (r.Some? ==> Alike(r.value, ending.value))
  }

  lemma ExecAlike(m: Machine, cie: Cie, cie_rules: Option<Rules>, insn: Insn, a: State, b: State)
    requires m.Valid() && Alike(a, b)
    ensures EndsAs(Exec(m, cie, cie_rules, insn, a), Exec(m, cie, cie_rules, insn, b))
  {
    var a', b' := Exec(m, cie, cie_rules, insn, a), Exec(m, cie, cie_rules, insn, b);
    assert a'.Some? <==> b'.Some?;
    if a'.Some? && !insn.RememberState? && !insn.RestoreState? { assert a'.value.stack == a.stack; }
  }

  /** Where rows start and end does not matter to it. */
  lemma AlikeAnywhere(a: State, b: State)
    requires Alike(a, b)
    ensures Alike(Marked(a), Marked(b)) && forall end: nat :: Alike(a.(locs := a.locs.(pc_end := end)), b)
  {
  }

  lemma Stays(m: Machine, cie: Cie, insn: Insn, st: State)
    requires m.Valid() && Exec(m, cie, None, insn, st).Some? && !Moves(m, cie, insn)
    ensures Exec(m, cie, None, insn, st).value.cur_pc <= st.cur_pc
  {
    if insn.AdvanceLoc? { Around(st.cur_pc, insn.n * cie.code_factor, m.modulus); }
  }

  lemma Around(loc: nat, d: nat, modulus: nat)
    requires modulus >= 1 && d % modulus == 0
    ensures (loc + d) % modulus <= loc
  {
    var k, rest := Divides(d, modulus);
    SameMod(loc + d, loc, k, modulus);
    var q, r := Divides(loc, modulus);
    assert q >= 0;
  }

  /** Every run, for whatever FDE and pc, ends in one of these ways. */
  lemma {:induction false} EndsSo(m: Machine, fde: Fde, pc: nat, i: nat, st: State, st0: State) returns (k: nat)
    requires m.Valid() && i <= |fde.cie.insns| && st.cur_pc <= pc && Alike(st, st0)
    ensures k < |Endings(m, fde.cie, i, st0)|
    ensures EndsAs(Run(m, fde, None, fde.cie.insns, pc, i, st), Endings(m, fde.cie, i, st0)[k])
    decreases |fde.cie.insns| - i
  {
    hide Exec, Moves, Alike;
    AlikeAnywhere(st, st0);
    k := 0;
    if i < |fde.cie.insns| {
      var insn := fde.cie.insns[i];
      ExecAlike(m, fde.cie, None, insn, Marked(st), Marked(st0));
      var r, r0 := Exec(m, fde.cie, None, insn, Marked(st)), Exec(m, fde.cie, None, insn, Marked(st0));
      if r.Some? {
        if !Moves(m, fde.cie, insn) { Stays(m, fde.cie, insn, Marked(st)); }
        if r.value.cur_pc > pc {
          AlikeAnywhere(r.value, r0.value);
        } else {
          k := EndsSo(m, fde, pc, i + 1, r.value, r0.value);
          if Moves(m, fde.cie, insn) { k := k + 1; }
        }
      }
    }
  }

  /** However the run of the CIE ends, it fails, or it gives the same rules and remembers nothing. */
  predicate Quiet(m: Machine, cie: Cie)
    requires m.Valid()
  {
    var es := Endings(m, cie, 0, Blank);
    forall a, b :: a in es && b in es ==>
      (a.Some? <==> b.Some?) && (a.Some? ==> a.value.locs.rules == b.value.locs.rules && a.value.stack == [])
  }

  /** Then runs for all FDEs and pcs give the same rules, and none remembers anything. */
  lemma QuietMeans(m: Machine, f: Fde, g: Fde, pc: nat, q: nat)
    requires m.Valid() && f.cie == g.cie && Quiet(m, f.cie) && f.pc_start <= pc && g.pc_start <= q
    ensures var a, b := RunCie(m, f, pc), RunCie(m, g, q);
            && (a.Some? <==> b.Some?)
            && (a.Some? ==> a.value.locs.rules == b.value.locs.rules && a.value.stack == b.value.stack == [])
  {
    hide Run;
    var k := EndsSo(m, f, pc, 0, Start(f, None, NoLocations, []), Blank);
    var l := EndsSo(m, g, q, 0, Start(g, None, NoLocations, []), Blank);
    var es := Endings(m, f.cie, 0, Blank);
    assert es[k] in es && es[l] in es;
  }

  /** The CIE neither moves the location nor remembers rules. */
  predicate Plain(cie: Cie) {
    forall insn :: insn in cie.insns ==>
                     !insn.SetLoc? && !insn.AdvanceLoc? && !insn.RememberState? && !insn.RestoreState?
  }

  lemma {:induction false} PlainEnds(m: Machine, cie: Cie, i: nat, st: State)
    requires m.Valid() && Plain(cie) && i <= |cie.insns| && st.stack == []
    ensures var es := Endings(m, cie, i, st); |es| == 1 && (es[0].Some? ==> es[0].value.stack == [])
    decreases |cie.insns| - i
  {
    if i < |cie.insns| {
      assert cie.insns[i] in cie.insns;
      var next := Exec(m, cie, None, cie.insns[i], Marked(st));
      if next.Some? { PlainEnds(m, cie, i + 1, next.value); }
    }
  }

  lemma PlainIsQuiet(m: Machine, cie: Cie)
    requires m.Valid() && Plain(cie)
    ensures Quiet(m, cie)
  {
    PlainEnds(m, cie, 0, Blank);
  }

  // ----- the cached rules

  /** The rules at `pc` if those of the CIE are taken from its cache. */
  function FromCached(m: Machine, fde: Fde, pc: nat, rules: Rules): Option<Locations>
    requires m.Valid()
  {
    var r := Run(m, fde, Some(rules), fde.insns, pc, 0, Start(fde, Some(rules), NoLocations, []));
    if r.None? then None else Some(r.value.locs)
  }

  ghost predicate Substitutes(m: Machine, f: Fde, g: Fde, pc: nat, q: nat)
    requires m.Valid()
  {
    var cached := RunCie(m, g, q);
    cached.Some? ==> FromCached(m, f, pc, cached.value.locs.rules) == Interpret(m, f, pc)
  }

  /** Starting from the cached rules of a quiet CIE is the same as running its instructions again. */
  lemma CachedCie(m: Machine, f: Fde, g: Fde, pc: nat, q: nat)
    requires m.Valid() && f.cie == g.cie && Quiet(m, f.cie) && f.pc_start <= pc && g.pc_start <= q
    ensures Substitutes(m, f, g, pc, q)
  {
    hide Run, Quiet;
    QuietMeans(m, f, g, pc, q);
    if RunCie(m, g, q).Some? {
      var cie := RunCie(m, f, pc).value;
      var rules := Some(cie.locs.rules);
      RunSimilar(m, f, rules, f.insns, pc, 0, Start(f, rules, cie.locs, []), Start(f, rules, NoLocations, []));
    }
  }

  /** Whatever FDE and pc the rules of the CIE were cached for, they do for every FDE that names it. */
  ghost predicate Cacheable(m: Machine, cie: Cie)
    requires m.Valid()
  {
    forall f: Fde, g: Fde, pc: nat, q: nat ::
      f.cie == g.cie == cie && f.pc_start <= pc < f.pc_end && g.pc_start <= q < g.pc_end ==> Substitutes(m, f, g, pc, q)
  }

  /** How far the instructions advance the location. */
  function Distance(cie: Cie, i: nat): nat
    requires i <= |cie.insns|
    decreases |cie.insns| - i
  {
    if i == |cie.insns| then 0
    else (if cie.insns[i].AdvanceLoc? then cie.insns[i].n * cie.code_factor else 0) + Distance(cie, i + 1)
  }

  /** The location is only advanced, and not around the address space. */
  predicate OnlyAdvances(m: Machine, cie: Cie) {
    (forall insn :: insn in cie.insns ==> !insn.SetLoc?) && Distance(cie, 0) < m.modulus
  }

  /** For every ending there is a pc at which the run ends so, in an FDE that starts at 0. */
  lemma {:induction false} EndingOccurs(m: Machine, fde: Fde, i: nat, st: State, k: nat) returns (pc: nat)
    requires m.Valid() && (forall insn :: insn in fde.cie.insns ==> !insn.SetLoc?) && i <= |fde.cie.insns|
    requires st.cur_pc + Distance(fde.cie, i) < m.modulus && k < |Endings(m, fde.cie, i, st)|
    ensures st.cur_pc <= pc && EndsAs(Run(m, fde, None, fde.cie.insns, pc, i, st), Endings(m, fde.cie, i, st)[k])
    decreases |fde.cie.insns| - i
  {
    hide Exec;
    pc := st.cur_pc;
    if i < |fde.cie.insns| {
      var insn := fde.cie.insns[i];
      assert insn in fde.cie.insns;
      var next := Exec(m, fde.cie, None, insn, Marked(st));
      if next.Some? {
        GoesOn(m, fde.cie, insn, Marked(st));
        var moves := Moves(m, fde.cie, insn);
        if !moves || k > 0 {
          pc := EndingOccurs(m, fde, i + 1, next.value, if moves then k - 1 else k);
        }
      }
    }
  }

  lemma GoesOn(m: Machine, cie: Cie, insn: Insn, st: State)
    requires m.Valid() && !insn.SetLoc? && Exec(m, cie, None, insn, st).Some?
    requires st.cur_pc + (if insn.AdvanceLoc? then insn.n * cie.code_factor else 0) < m.modulus
    ensures Exec(m, cie, None, insn, st).value.cur_pc ==
            st.cur_pc + if insn.AdvanceLoc? then insn.n * cie.code_factor else 0
    ensures Moves(m, cie, insn) <==> st.cur_pc < Exec(m, cie, None, insn, st).value.cur_pc
  {
  }

  /** An FDE that starts at 0 and reaches to `pc`. */
  function Reaching(cie: Cie, pc: nat, insns: seq<Insn>): Fde {
    Fde(0, pc + 1, 0, cie, insns)
  }

  lemma Occurs(m: Machine, cie: Cie, ending: Option<State>) returns (pc: nat)
    requires m.Valid() && OnlyAdvances(m, cie) && ending in Endings(m, cie, 0, Blank)
    ensures forall insns :: EndsAs(RunCie(m, Reaching(cie, pc, insns), pc), ending)
  {
    var k :| 0 <= k < |Endings(m, cie, 0, Blank)| && Endings(m, cie, 0, Blank)[k] == ending;
    pc := EndingOccurs(m, Reaching(cie, 0, []), 0, Blank, k);
    forall insns
      ensures EndsAs(RunCie(m, Reaching(cie, pc, insns), pc), ending)
    {
      OnlyTheEnd(m, Reaching(cie, 0, []), Reaching(cie, pc, insns), pc, 0, Blank);
    }
  }

  /** Of the FDE, the run of a CIE uses only the CIE and the end. */
  lemma {:induction false} OnlyTheEnd(m: Machine, f: Fde, g: Fde, pc: nat, i: nat, st: State)
    requires m.Valid() && f.cie == g.cie && i <= |f.cie.insns|
    ensures EndsAs(Run(m, g, None, f.cie.insns, pc, i, st), Run(m, f, None, f.cie.insns, pc, i, st))
    decreases |f.cie.insns| - i
  {
    hide Exec;
    if i < |f.cie.insns| {
      var next := Exec(m, f.cie, None, f.cie.insns[i], Marked(st));
      if next.Some? { OnlyTheEnd(m, f, g, pc, i + 1, next.value); }
    }
  }

  /** An FDE without instructions shows the rules that it gets from its CIE. */
  lemma RulesShow(m: Machine, fde: Fde, pc: nat, rules: Rules)
    requires m.Valid() && fde.insns == [] && fde.pc_start <= pc
    ensures FromCached(m, fde, pc, rules).Some? && FromCached(m, fde, pc, rules).value.rules == rules
    ensures RunCie(m, fde, pc).None? ==> Interpret(m, fde, pc).None?
    ensures RunCie(m, fde, pc).Some? ==>
              && Interpret(m, fde, pc).Some?
              && Interpret(m, fde, pc).value.rules == RunCie(m, fde, pc).value.locs.rules
  {
    assert map[] + rules == rules;
  }

  const Forgotten := Location(Undefined, 0, 0)

  /** An FDE that sets a rule and restores a state shows whether its CIE has remembered one. */
  lemma StackShows(m: Machine, fde: Fde, pc: nat, reg: nat)
    requires m.Valid() && fde.insns == [MarkUndefined(reg), RestoreState] && fde.pc_start <= pc
    requires var cie := RunCie(m, fde, pc); cie.Some? && cie.value.stack != [] && reg !in cie.value.stack[0].rules
    ensures FromCached(m, fde, pc, RunCie(m, fde, pc).value.locs.rules) != Interpret(m, fde, pc)
  {
    var cie := RunCie(m, fde, pc).value;
    var rules := cie.locs.rules;
    var a := Start(fde, Some(rules), NoLocations, []);
    var b := Start(fde, Some(rules), cie.locs, cie.stack);
    var a1, b1 := WithRule(Marked(a), reg, Forgotten), WithRule(Marked(b), reg, Forgotten);
    var a2, b2 := Marked(a1), Marked(b1).(locs := cie.stack[0], stack := cie.stack[1..]);
    assert Run(m, fde, Some(rules), fde.insns, pc, 2, a2).Some?;
    assert Run(m, fde, Some(rules), fde.insns, pc, 2, b2).Some?;
    assert Run(m, fde, Some(rules), fde.insns, pc, 1, a1) == Run(m, fde, Some(rules), fde.insns, pc, 2, a2);
    assert Run(m, fde, Some(rules), fde.insns, pc, 1, b1) == Run(m, fde, Some(rules), fde.insns, pc, 2, b2);
  }

  /** If the CIE does not do for all FDEs, two of its endings differ, or one remembers something: this shows. */
  lemma CacheableIsQuiet(m: Machine, cie: Cie, a: Option<State>, b: Option<State>)
    requires m.Valid() && OnlyAdvances(m, cie) && Cacheable(m, cie)
    requires a in Endings(m, cie, 0, Blank) && b in Endings(m, cie, 0, Blank) && b.Some?
    ensures a.Some? && a.value.locs.rules == b.value.locs.rules && a.value.stack == []
  {
    hide Run, Endings, OnlyAdvances, Interpret, FromCached, RunCie;
    var pc := Occurs(m, cie, a);
    var q := Occurs(m, cie, b);
    var f, g := Reaching(cie, pc, []), Reaching(cie, q, []);
    assert Substitutes(m, f, g, pc, q);
    RulesShow(m, f, pc, RunCie(m, g, q).value.locs.rules);
    if a.value.stack != [] {
      var reg := Unused(a.value.stack[0].rules.Keys);
      var h := Reaching(cie, pc, [MarkUndefined(reg), RestoreState]);
      assert Substitutes(m, h, h, pc, pc);
      StackShows(m, h, pc, reg);
    }
  }

  /**
   The rules of a CIE that only advances the location can be cached if and only if
   all endings of its run are failures, or give the same rules and remember nothing.
   */
  lemma CacheableExactly(m: Machine, cie: Cie)
    requires m.Valid() && OnlyAdvances(m, cie)
    ensures Cacheable(m, cie) <==> Quiet(m, cie)
  {
    hide OnlyAdvances, Endings, Substitutes;
    if Quiet(m, cie) {
      forall f: Fde, g: Fde, pc: nat, q: nat
        | f.cie == g.cie == cie && f.pc_start <= pc < f.pc_end && g.pc_start <= q < g.pc_end
        ensures Substitutes(m, f, g, pc, q)
      {
        CachedCie(m, f, g, pc, q);
      }
    }
    if Cacheable(m, cie) {
      var es := Endings(m, cie, 0, Blank);
      forall a, b | a in es && b in es
        ensures (a.Some? <==> b.Some?) && (a.Some? ==> a.value.locs.rules == b.value.locs.rules && a.value.stack == [])
      {
        if b.Some? { CacheableIsQuiet(m, cie, a, b); }
        if a.Some? { CacheableIsQuiet(m, cie, b, a); }
      }
    }
  }

  /** A CIE that advances the location and then changes a rule cannot be cached. */
  lemma MovingExample()
    ensures var m, cie := Machine(TWO_64, false), Cie(1, -8, [AdvanceLoc(4), DefCfa(7, 8)]);
            m.Valid() && OnlyAdvances(m, cie) && !Cacheable(m, cie)
  {
    var m, cie := Machine(TWO_64, false), Cie(1, -8, [AdvanceLoc(4), DefCfa(7, 8)]);
    assert Distance(cie, 2) == 0 && Distance(cie, 1) == 0 && Distance(cie, 0) == 4;
    var st := State(4, NoLocations, []);
    var st' := WithRule(Marked(st), CFA_REG, Location(Register, 7, 8));
    assert Endings(m, cie, 2, st') == [Some(st')];
    assert Endings(m, cie, 1, st) == [Some(st')];
    assert Endings(m, cie, 0, Blank) == [Some(st), Some(st')];
    assert Some(st) in Endings(m, cie, 0, Blank) && Some(st') in Endings(m, cie, 0, Blank);
    assert CFA_REG in st'.locs.rules;
    CacheableExactly(m, cie);
  }
}
