/**
 The cache of rules in front of the call frame interpreter: one row for each
 range of pcs with the same rules, found by the end of the range.
 */
module RowCache {
  import opened CfaRows
  import opened CieRuns
  import opened DwarfCfa
  import Index = FdeIndex
  import opened OrderedKeys

  /** A row as it is cached: its rules and range, and the CIE of its FDE. */
  datatype Row = Row(locs: Locations, cie: Cie)

  predicate Agrees(found: Option<Locations>, locs: Locations) {
    found.Some? && found.value.rules == locs.rules && found.value.pc_start == locs.pc_start
  }

  /** The location stays in the FDE, and its CIE is quiet. */
  predicate Contained(m: Machine, fde: Fde)
    requires m.Valid()
  {
    Inside(m, fde, 0, fde.pc_start) && Quiet(m, fde.cie)
  }

  /** The row was found for pc `o` of the FDE. */
  ghost predicate FoundAt(m: Machine, fde: Fde, o: nat, row: Row)
    requires m.Valid()
  {
    Covers(fde, o) && Interpret(m, fde, o) == Some(row.locs) && row.cie == fde.cie
  }

  /** A row lies in its FDE. */
  lemma FoundInside(m: Machine, fde: Fde, o: nat, row: Row)
    requires m.Valid() && Contained(m, fde) && FoundAt(m, fde, o, row)
    ensures fde.pc_start <= row.locs.pc_start <= o < row.locs.pc_end <= fde.pc_end
  {
    hide Interpret, Inside, Quiet;
    RowInFde(m, fde, o);
  }

  /** A row that ends after the pc of another, and not after its end, is that other row. */
  lemma EndsApart(m: Machine, fde: Fde, a: nat, b: nat, row: Row, row': Row)
    requires m.Valid() && Contained(m, fde) && FoundAt(m, fde, a, row) && FoundAt(m, fde, b, row')
    requires a < row'.locs.pc_end <= row.locs.pc_end
    ensures row == row'
  {
    hide Interpret, Inside, Quiet;
    FoundInside(m, fde, a, row);
    FoundInside(m, fde, b, row');
    if a <= b { RowForward(m, fde, a, b); } else { RowForward(m, fde, b, a); }
  }

  /**
   Where all rows of an FDE hold, a row has the rules of each of its pcs; unless the
   FDE overhangs, also their start.
   */
  lemma FoundAgrees(m: Machine, fde: Fde, o: nat, row: Row, pc: nat)
    requires m.Valid() && Regular(m, fde) && FoundAt(m, fde, o, row) && row.locs.pc_start <= pc < row.locs.pc_end
    ensures RestoresRight(m, fde) ==> HasRules(Interpret(m, fde, pc), row.locs.rules)
    ensures !Overhangs(m, fde) ==> Agrees(Interpret(m, fde, pc), row.locs)
  {
    hide Interpret, Inside, Quiet, Steady, RestoresRight, Overhangs, LastLocation;
    if RestoresRight(m, fde) {
      RowsHoldExactly(m, fde);
      assert RowHolds(m, fde, o);
    }
    if !Overhangs(m, fde) {
      var last := LastLocation(m, fde, 0, fde.pc_start);
      if last <= o { LastRow(m, fde, o); }
      UsualRow(m, fde, if last <= o then last else o, pc);
    }
  }

  class DwarfSection {
    const m: Machine
    const index: Index.DwarfSection
    /** The FDE at an offset of the section. */
    const decode: nat -> Fde
    var loc_regs: map<nat, Row>
    var cie_loc_regs: map<nat, Rules>

    constructor (m: Machine, index: Index.DwarfSection, decode: nat -> Fde)
      requires m.Valid() && index.Valid()
      ensures this.m == m && this.index == index && this.decode == decode && CachesHold()
    {
      this.m, this.index, this.decode := m, index, decode;
      loc_regs, cie_loc_regs := map[], map[];
    }

    /** The FDEs of the section. */
    ghost predicate HasFde(f: Fde) {
      exists info :: info in index.Fdes() && decode(info.offset) == f
    }

    /**
     The table has the ranges of the FDEs, which are disjoint and keep their
     locations and the effects of their CIEs to themselves; an offset names one CIE.
     */
    ghost predicate Usable() {
      && m.Valid()
      && (forall info :: info in index.Fdes() ==>
                           decode(info.offset).pc_start == info.pc_start && decode(info.offset).pc_end == info.pc_end)
      && (forall f, g, pc :: HasFde(f) && HasFde(g) && Covers(f, pc) && Covers(g, pc) ==> f == g)
      && (forall f :: HasFde(f) ==> Contained(m, f))
      && CiesNamed()
    }

    ghost predicate CiesNamed() {
      forall f, g :: HasFde(f) && HasFde(g) && f.cie_offset == g.cie_offset ==> f.cie == g.cie
    }

    ghost predicate CachesHold()
      reads this, index
    {
      && m.Valid() && index.Valid()
      && (forall k :: k in loc_regs ==> loc_regs[k].locs.pc_end == k && Cached(loc_regs[k]))
      && (forall o :: o in cie_loc_regs ==> exists f, pc :: CieRules(f, pc, o, cie_loc_regs[o]))
    }

    ghost predicate Cached(row: Row)
      requires m.Valid()
    {
      exists f, o :: HasFde(f) && FoundAt(m, f, o, row)
    }

    ghost predicate CieRules(f: Fde, pc: nat, o: nat, rules: Rules)
      requires m.Valid()
    {
      && HasFde(f) && f.cie_offset == o && f.pc_start <= pc && RunCie(m, f, pc).Some?
      && RunCie(m, f, pc).value.locs.rules == rules
    }

    /** The FDE that the table finds for `pc`. */
    method GetFdeFromPc(pc: nat) returns (fde: Option<Fde>)
      requires Usable() && CachesHold()
      modifies index
      ensures CachesHold()
      ensures fde.Some? ==> HasFde(fde.value) && Covers(fde.value, pc)
      ensures fde.None? ==> forall f :: HasFde(f) ==> !Covers(f, pc)
    {
      hide Contained, CiesNamed, Cached, CieRules;
      var info := index.GetFdeFromPc(pc);
      if info.None? {
        forall f | HasFde(f)
          ensures !Covers(f, pc)
        {
          var i :| i in index.Fdes() && decode(i.offset) == f;
          assert !Index.Contains(i, pc);
        }
        return None;
      }
      return Some(decode(info.value.offset));
    }

    /** The instructions from the start, until the location passes `pc`. */
    method GetLocationInfo(fde: Fde, cie_rules: Option<Rules>, insns: seq<Insn>, pc: nat, start: State)
      returns (r: Option<State>)
      requires m.Valid()
      ensures r == Run(m, fde, cie_rules, insns, pc, 0, start)
    {
      var st, i := start, 0;
      while true
        invariant 0 <= i <= |insns|
        invariant Run(m, fde, cie_rules, insns, pc, i, st) == Run(m, fde, cie_rules, insns, pc, 0, start)
        decreases |insns| - i
      {
        if st.cur_pc > pc {
          return Some(st.(locs := st.locs.(pc_end := st.cur_pc)));
        }
        if i >= |insns| {
          return Some(st.(locs := st.locs.(pc_end := fde.pc_end)));
        }
        st := st.(locs := st.locs.(pc_start := st.cur_pc));
        var next := Exec(m, fde.cie, cie_rules, insns[i], st);
        if next.None? { return None; }
        st, i := next.value, i + 1;
      }
    }

    /**
     The rules of `fde` at `pc`, with those of the CIE taken from their cache: if
     the CIE is quiet, those of interpretation from scratch.
     */
    method GetCfaLocationInfo(pc: nat, fde: Fde) returns (locs: Option<Locations>)
      requires CiesNamed() && CachesHold() && HasFde(fde) && Covers(fde, pc)
      modifies this`cie_loc_regs
      ensures CachesHold()
      ensures locs == if fde.cie_offset in old(cie_loc_regs) then
                        FromCached(m, fde, pc, old(cie_loc_regs)[fde.cie_offset])
                      else Interpret(m, fde, pc)
      ensures Quiet(m, fde.cie) ==> locs == Interpret(m, fde, pc)
      ensures locs.Some? ==> fde.cie_offset in cie_loc_regs
    {
      hide HasFde, Cached, Run, FoundAt, Quiet;
      if fde.cie_offset !in cie_loc_regs {
        var cie := GetLocationInfo(fde, None, fde.cie.insns, pc, Start(fde, None, NoLocations, []));
        if cie.None? { return None; }
        cie_loc_regs := cie_loc_regs[fde.cie_offset := cie.value.locs.rules];
        assert CieRules(fde, pc, fde.cie_offset, cie.value.locs.rules);
        var rules := Some(cie_loc_regs[fde.cie_offset]);
        var r := GetLocationInfo(fde, rules, fde.insns, pc, Start(fde, rules, cie.value.locs, cie.value.stack));
        locs := if r.None? then None else Some(r.value.locs);
      } else {
        ghost var f, p :| CieRules(f, p, fde.cie_offset, cie_loc_regs[fde.cie_offset]);
        if Quiet(m, fde.cie) { CachedCie(m, fde, f, pc, p); }
        var rules := Some(cie_loc_regs[fde.cie_offset]);
        var r := GetLocationInfo(fde, rules, fde.insns, pc, Start(fde, rules, NoLocations, []));
        locs := if r.None? then None else Some(r.value.locs);
      }
    }

    /** A lookup that misses finds a row whose end is not in the cache yet. */
    lemma MissIsNew(pc: nat, key: nat, fde: Fde, row: Row)
      requires Usable() && CachesHold() && key in loc_regs && pc < key && pc < loc_regs[key].locs.pc_start
      requires forall k :: k in loc_regs && pc < k ==> key <= k
      requires HasFde(fde) && FoundAt(m, fde, pc, row)
      ensures row.locs.pc_end !in loc_regs
      ensures Regular(m, fde) && !Overhangs(m, fde) ==> row.locs.pc_end <= loc_regs[key].locs.pc_start
    {
      hide HasFde, FoundAt, Contained, Regular, Overhangs, Interpret;
      assert Cached(loc_regs[key]);
      var f, o :| HasFde(f) && FoundAt(m, f, o, loc_regs[key]);
      FoundInside(m, f, o, loc_regs[key]);
      FoundInside(m, fde, pc, row);
      var shared := loc_regs[key].locs.pc_start;
      if shared < row.locs.pc_end {
        assert Covers(f, shared) && Covers(fde, shared);
        if key <= row.locs.pc_end { EndsApart(m, fde, pc, o, row, loc_regs[key]); }
        if Regular(m, fde) && !Overhangs(m, fde) {
          FoundAgrees(m, fde, pc, row, shared);
          FoundAgrees(m, fde, o, loc_regs[key], shared);
        }
      }
    }

    /** A cached row that holds `pc` has the rules of interpretation from scratch, for every FDE whose rows hold. */
    lemma HitAgrees(pc: nat, key: nat)
      requires Usable() && CachesHold() && key in loc_regs && loc_regs[key].locs.pc_start <= pc < key
      ensures exists f :: HasFde(f) && Covers(f, pc)
      ensures forall f :: HasFde(f) && Covers(f, pc) ==>
                            && loc_regs[key].cie == f.cie
                            && (Regular(m, f) && RestoresRight(m, f) ==>
                                HasRules(Interpret(m, f, pc), loc_regs[key].locs.rules))
                            && (Regular(m, f) && !Overhangs(m, f) ==> Agrees(Interpret(m, f, pc), loc_regs[key].locs))
    {
      hide HasFde, Contained, RestoresRight, Overhangs, Regular, Interpret;
      assert Cached(loc_regs[key]);
      var g, o :| HasFde(g) && FoundAt(m, g, o, loc_regs[key]);
      FoundInside(m, g, o, loc_regs[key]);
      assert Covers(g, pc);
      if Regular(m, g) { FoundAgrees(m, g, o, loc_regs[key], pc); }
    }

    /** The least end of a cached row after `pc`. */
    ghost predicate NextEnd(key: nat, pc: nat)
      reads this
    {
      key in loc_regs && pc < key && forall k :: k in loc_regs && pc < k ==> key <= k
    }

    /** A lookup of `pc` is answered with this row from the cache. */
    ghost predicate Hits(pc: nat, row: Row)
      reads this
    {
      exists key :: NextEnd(key, pc) && loc_regs[key] == row && row.locs.pc_start <= pc
    }

    /** What interpretation from scratch finds. */
    function FromScratch(f: Fde, pc: nat): Option<Row>
      requires m.Valid()
    {
      var locs := Interpret(m, f, pc);
      if locs.None? then None else Some(Row(locs.value, f.cie))
    }

    /** Caches the row under its end, unless something is cached there. */
    method Emplace(row: Row)
      requires CachesHold() && Cached(row)
      modifies `loc_regs
      ensures CachesHold()
      ensures loc_regs == if row.locs.pc_end in old(loc_regs) then old(loc_regs)
                          else old(loc_regs)[row.locs.pc_end := row]
    {
      hide Cached, CieRules;
      if row.locs.pc_end !in loc_regs {
        loc_regs := loc_regs[row.locs.pc_end := row];
      }
    }

    /**
     The rules at `pc`: those that interpretation from scratch would find, for
     every FDE whose rows hold, whatever was looked up before.
     */
    method Step(pc: nat) returns (found: Option<Row>)
      requires Usable() && CachesHold()
      modifies this, index
      ensures CachesHold()
      ensures forall f :: HasFde(f) && Covers(f, pc) && Regular(m, f) && RestoresRight(m, f) ==>
                            (found.Some? <==> Interpret(m, f, pc).Some?) &&
                            (found.Some? ==> found.value.cie == f.cie
                                             && HasRules(Interpret(m, f, pc), found.value.locs.rules))
      ensures forall f :: HasFde(f) && Covers(f, pc) && Regular(m, f) && !Overhangs(m, f) && found.Some? ==>
                            Agrees(Interpret(m, f, pc), found.value.locs)
      ensures (forall f :: HasFde(f) ==> !Covers(f, pc)) ==> found.None?
      ensures forall key :: key in old(loc_regs) ==> key in loc_regs && loc_regs[key] == old(loc_regs)[key]
      ensures forall key :: key in loc_regs && key !in old(loc_regs) ==> found.Some? && key == found.value.locs.pc_end
      ensures found.Some? ==> found.value.locs.pc_end in loc_regs && loc_regs[found.value.locs.pc_end] == found.value
      ensures forall row :: old(Hits(pc, row)) ==> found == Some(row)
      ensures (forall row :: !old(Hits(pc, row))) ==>
                forall f :: HasFde(f) && Covers(f, pc) ==> found == FromScratch(f, pc)
    {
      hide Regular, RestoresRight, Overhangs, HasFde, Usable, CachesHold, Interpret;
      var it := UpperBound(loc_regs.Keys, pc);
      assert it.Some? ==> NextEnd(it.value, pc);
      if it.None? || pc < loc_regs[it.value].locs.pc_start {
        found := Fill(pc, it);
        if found.None? { return; }
        it := Some(found.value.locs.pc_end);
      } else {
        HitEnds(it.value);
        assert old(Hits(pc, loc_regs[it.value]));
      }
      HitAgrees(pc, it.value);
      found := Some(loc_regs[it.value]);
    }

    /** A row is cached under its end. */
    lemma HitEnds(key: nat)
      requires CachesHold() && key in loc_regs
      ensures loc_regs[key].locs.pc_end == key
    {
    }

    /** Finds the row for a pc that the cache does not answer, and caches it; `it` is the least end after the pc. */
    method Fill(pc: nat, it: Option<nat>) returns (found: Option<Row>)
      requires Usable() && CachesHold()
      requires if it.Some? then NextEnd(it.value, pc) else forall k :: k in loc_regs ==> k <= pc
      requires it.Some? ==> pc < loc_regs[it.value].locs.pc_start
      modifies this, index
      ensures CachesHold() && forall f :: HasFde(f) && Covers(f, pc) ==> found == FromScratch(f, pc)
      ensures (forall f :: HasFde(f) ==> !Covers(f, pc)) ==> found.None?
      ensures found.None? ==> loc_regs == old(loc_regs)
      ensures found.Some? ==> && found.value.locs.pc_start <= pc < found.value.locs.pc_end
                              && found.value.locs.pc_end !in old(loc_regs)
                              && loc_regs == old(loc_regs)[found.value.locs.pc_end := found.value]
    {
      hide Run, Interpret, HasFde, CieRules, Inside, Quiet, CiesNamed;
      var fde := GetFdeFromPc(pc);
      if fde.None? { return None; }
      var locs := GetCfaLocationInfo(pc, fde.value);
      if locs.None? { return None; }
      var row := Row(locs.value, fde.value.cie);
      assert FoundAt(m, fde.value, pc, row) && Cached(row);
      FoundInside(m, fde.value, pc, row);
      if it.Some? { MissIsNew(pc, it.value, fde.value, row); }
      Emplace(row);
      return Some(row);
    }

    /** No row of the FDE is cached. */
    ghost predicate NothingOf(f: Fde)
      reads this
    {
      forall key :: key in loc_regs ==> key <= f.pc_start || f.pc_end < key
    }

    /** A cached row that holds a pc of the FDE ends in it. */
    lemma OwnEnd(f: Fde, pc: nat, key: nat)
      requires Usable() && CachesHold() && HasFde(f) && Covers(f, pc) && key in loc_regs
               && loc_regs[key].locs.pc_start <= pc < key
      ensures key <= f.pc_end
    {
      hide HasFde, FoundAt, Contained;
      assert Cached(loc_regs[key]);
      var g, o :| HasFde(g) && FoundAt(m, g, o, loc_regs[key]);
      FoundInside(m, g, o, loc_regs[key]);
      assert Covers(g, pc);
    }

    /** Then no lookup of its pcs is answered from the cache. */
    lemma NoHit(f: Fde, pc: nat, row: Row)
      requires Usable() && CachesHold() && HasFde(f) && Covers(f, pc) && NothingOf(f)
      ensures !Hits(pc, row)
    {
      hide HasFde, FoundAt, Contained;
      if key :| NextEnd(key, pc) && loc_regs[key] == row && row.locs.pc_start <= pc {
        OwnEnd(f, pc, key);
        assert false;
      }
    }

    /**
     Looking up the last location of an FDE whose rows do not all hold spoils the
     cache: afterwards `pc` is answered with rules that it does not have.
     */
    method LookUpLast(f: Fde) returns (ghost pc: nat, ghost row: Row)
      requires Usable() && CachesHold() && HasFde(f) && NothingOf(f) && Regular(m, f) && !RestoresRight(m, f)
      modifies this, index
      ensures CachesHold() && Covers(f, pc) && Hits(pc, row) && !HasRules(Interpret(m, f, pc), row.locs.rules)
    {
      hide Run, Interpret, Regular, RestoresRight, HasFde, CachesHold, Usable, LastLocation;
      assert m.Valid() by { ValidMachine(); }
      pc := TrailingRestoreIsStale(m, f);
      var last := LastLocation(m, f, 0, f.pc_start);
      forall r
        ensures !Hits(last, r)
      {
        NoHit(f, last, r);
      }
      ghost var before := loc_regs;
      var found := Step(last);
      row := found.value;
      LastRowEnds(m, f);
      assert NextEnd(row.locs.pc_end, pc);
    }

    lemma ValidMachine()
      requires CachesHold()
      ensures m.Valid()
    {
    }
  }

  lemma LastRowEnds(m: Machine, f: Fde)
    requires m.Valid() && Regular(m, f) && LastLocation(m, f, 0, f.pc_start) < f.pc_end
    ensures var r := Interpret(m, f, LastLocation(m, f, 0, f.pc_start)); r.Some? ==> r.value.pc_end == f.pc_end
  {
    hide Run, Interpret;
    LastRow(m, f, LastLocation(m, f, 0, f.pc_start));
  }
}
