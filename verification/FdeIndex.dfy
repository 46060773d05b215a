/**
 The binary search table of FDEs.

 A section holds FDEs, each covering a range of pcs, and CIEs.  The ranges may
 overlap.  The table has a row for the end of every range, and extra rows that
 fill the gap in front of a range if an earlier starting one reaches over it.
 */
module FdeIndex {
  import opened OrderedKeys
  import opened Sorting

  /** What is found at an offset of the section. */
  datatype Entry =
    | Unreadable
    | Cie(next: nat)
    | Fde(pc_start: nat, pc_end: nat, next: nat)

  datatype FdeInfo = FdeInfo(pc_start: nat, pc_end: nat, offset: nat)

  datatype Row = Row(pc_end: nat, offset: nat)

  predicate Contains(f: FdeInfo, pc: nat) {
    f.pc_start <= pc < f.pc_end
  }

  const InfoKey := (f: FdeInfo) => (f.pc_end, f.offset)
  const RowKey := (r: Row) => (r.pc_end, r.offset)

  function RowOf(f: FdeInfo): Row {
    Row(f.pc_end, f.offset)
  }

  /** What the entry at an offset adds to the FDEs. */
  function Met(entry: nat -> Entry, offset: nat): seq<FdeInfo> {
    match entry(offset)
    case Fde(a, b, _) => if a < b then [FdeInfo(a, b, offset)] else []
    case _ => []
  }

  /** The FDEs met from `offset` on, until the section ends, cannot be read or jumps back. */
  ghost function Scan(entry: nat -> Entry, offset: nat, end: nat): seq<FdeInfo>
    decreases end - offset
  {
    if offset >= end then [] else
    Met(entry, offset) +
    if entry(offset).Unreadable? || entry(offset).next <= offset then [] else Scan(entry, entry(offset).next, end)
  }

  lemma ScanOn(entry: nat -> Entry, offset: nat, end: nat, fdes: seq<FdeInfo>)
    requires offset < end
    ensures var e := entry(offset);
            fdes + Scan(entry, offset, end) ==
            if e.Unreadable? then fdes
            else if e.next <= offset then fdes + Met(entry, offset)
            else fdes + Met(entry, offset) + Scan(entry, e.next, end)
  {
    var e := entry(offset);
    if e.Unreadable? {
      assert Scan(entry, offset, end) == [];
    } else if e.next > offset {
      hide Met;
      Associates(fdes, Met(entry, offset), Scan(entry, e.next, end));
    }
  }

  lemma Associates(a: seq<FdeInfo>, b: seq<FdeInfo>, c: seq<FdeInfo>)
    ensures a + (b + c) == a + b + c
  {
  }

  lemma ScanEnds(entry: nat -> Entry, offset: nat, end: nat, fdes: seq<FdeInfo>)
    requires offset >= end
    ensures fdes + Scan(entry, offset, end) == fdes
  {
  }

  /** Every scanned FDE is the entry at its offset. */
  ghost predicate Listed(entry: nat -> Entry, fdes: seq<FdeInfo>) {
    forall f :: f in fdes ==>
                  f.pc_start < f.pc_end && entry(f.offset).Fde? &&
                  entry(f.offset).pc_start == f.pc_start && entry(f.offset).pc_end == f.pc_end
  }

  lemma {:induction false} ScanListed(entry: nat -> Entry, offset: nat, end: nat)
    ensures Listed(entry, Scan(entry, offset, end))
    decreases end - offset
  {
    if offset < end && !entry(offset).Unreadable? && entry(offset).next > offset {
      ScanListed(entry, entry(offset).next, end);
    }
  }

  /** Entries of the section in order, each where the one before says that the next one is. */
  ghost predicate Path(entry: nat -> Entry, start: nat, end: nat, path: seq<nat>) {
    && path != [] && path[0] == start && (forall i :: 0 <= i < |path| ==> path[i] < end)
    && forall i, j :: 0 <= i < |path| && j == i + 1 < |path| ==> LeadsOn(entry, path[i], path[j])
  }

  predicate LeadsOn(entry: nat -> Entry, offset: nat, next: nat) {
    !entry(offset).Unreadable? && offset < next == entry(offset).next
  }

  /** The last entry of a path is an FDE for this pc. */
  ghost predicate Covers(entry: nat -> Entry, path: seq<nat>, pc: nat) {
    path != [] && var e := entry(path[|path| - 1]); e.Fde? && e.pc_start <= pc < e.pc_end
  }

  /** Every FDE on a path is scanned. */
  lemma {:induction false} PathScanned(entry: nat -> Entry, start: nat, end: nat, path: seq<nat>, pc: nat)
    requires Path(entry, start, end, path) && Covers(entry, path, pc)
    ensures exists f :: f in Scan(entry, start, end) && Contains(f, pc)
    decreases |path|
  {
    if |path| == 1 {
      var e := entry(start);
      var f := FdeInfo(e.pc_start, e.pc_end, start);
      assert Met(entry, start) == [f];
      assert Contains(f, pc);
    } else {
      assert LeadsOn(entry, path[0], path[1]);
      PathScanned(entry, path[1], end, path[1..], pc);
    }
  }

  /** And every scanned FDE is on a path. */
  lemma {:induction false} ScannedPath(entry: nat -> Entry, start: nat, end: nat, f: FdeInfo) returns (path: seq<nat>)
    requires f in Scan(entry, start, end)
    ensures Path(entry, start, end, path) && path[|path| - 1] == f.offset
    decreases end - start
  {
    if f in Met(entry, start) {
      path := [start];
    } else {
      var next := entry(start).next;
      var rest := ScannedPath(entry, next, end, f);
      path := [start] + rest;
      assert LeadsOn(entry, path[0], path[1]);
    }
  }

  // ----- filling the gaps

  function PreviousEnd(s: seq<FdeInfo>, i: nat): nat
    requires i < |s|
  {
    if i > 0 then s[i - 1].pc_end else 0
  }

  /** `s[i]` has a gap in front of it, and `s[g]` is the earliest starting range from there on and reaches into it. */
  ghost predicate Reaches(s: seq<FdeInfo>, i: nat, g: nat) {
    && i < g < |s| && PreviousEnd(s, i) < s[i].pc_start && s[g].pc_start < s[i].pc_start
    && forall j :: i <= j < |s| ==> s[g].pc_start <= s[j].pc_start
  }

  ghost predicate Fills(s: seq<FdeInfo>, f: FdeInfo, i: nat, g: nat) {
    Reaches(s, i, g) && f == FdeInfo(s[g].pc_start, s[i].pc_start, s[g].offset)
  }

  ghost predicate IsFilling(s: seq<FdeInfo>, f: FdeInfo) {
    exists i, g :: Fills(s, f, i, g)
  }

  /** The gaps in front of `s[k..]` are filled by `fills`, and by nothing else. */
  ghost predicate Filled(s: seq<FdeInfo>, k: nat, fills: seq<FdeInfo>) {
    && (forall f {:trigger IsFilling(s, f)} :: f in fills ==> IsFilling(s, f))
    && (forall i, g :: k <= i && Reaches(s, i, g) ==> exists f :: f in fills && f.pc_end == s[i].pc_start)
  }

  lemma FilledStep(s: seq<FdeInfo>, i: nat, fills: seq<FdeInfo>, g: nat)
    requires i < |s| && Filled(s, i + 1, fills) && i <= g < |s|
    requires forall j :: i < j < |s| ==> s[g].pc_start <= s[j].pc_start
    requires g == i ==> i + 1 == |s|
    ensures var gap := PreviousEnd(s, i) < s[i].pc_start && s[g].pc_start < s[i].pc_start;
            Filled(s, i, if gap then fills + [FdeInfo(s[g].pc_start, s[i].pc_start, s[g].offset)] else fills)
  {
    var gap := PreviousEnd(s, i) < s[i].pc_start && s[g].pc_start < s[i].pc_start;
    var f := FdeInfo(s[g].pc_start, s[i].pc_start, s[g].offset);
    if gap {
      assert Fills(s, f, i, g) && IsFilling(s, f);
      assert f in fills + [f];
      forall i', g' | i <= i' && Reaches(s, i', g')
        ensures exists x :: x in fills + [f] && x.pc_end == s[i'].pc_start
      {
        if i' > i {
          var x :| x in fills && x.pc_end == s[i'].pc_start;
          assert x in fills + [f];
        }
      }
    }
  }

  // ----- looking up

  /** The rows of the FDEs and of the fillings. */
  function Rows(s: seq<FdeInfo>): seq<Row> {
    seq(|s|, i requires 0 <= i < |s| => RowOf(s[i]))
  }

  /** `r` is the first row that ends after `pc`. */
  ghost predicate FirstAfter(rows: seq<Row>, r: Row, pc: nat) {
    r in rows && pc < r.pc_end && forall x :: x in rows && pc < x.pc_end ==> Leq(RowKey(r), RowKey(x))
  }

  /** If the first row after `pc` belongs to an FDE, that FDE has the least index among those that end after `pc`. */
  lemma RowOfFde(s: seq<FdeInfo>, fills: seq<FdeInfo>, r: Row, pc: nat, i: nat)
    requires Sorted(s, InfoKey) && FirstAfter(Rows(s + fills), r, pc) && i < |s| && RowOf(s[i]) == r
    ensures forall j :: 0 <= j < i && pc < s[j].pc_end ==> RowOf(s[j]) == r
  {
    forall j | 0 <= j < i && pc < s[j].pc_end
      ensures RowOf(s[j]) == r
    {
      assert Rows(s + fills)[j] == RowOf(s[j]);
      assert Leq(InfoKey(s[j]), InfoKey(s[i]));
    }
  }

  lemma OnlyLaterContain(s: seq<FdeInfo>, i: nat, m: nat, pc: nat)
    requires Sorted(s, InfoKey) && i < |s| && m < |s| && PreviousEnd(s, i) <= pc && Contains(s[m], pc)
    ensures i <= m
  {
    assert forall j :: 0 <= j < i - 1 ==> Leq(InfoKey(s[j]), InfoKey(s[i - 1]));
  }

  /** The range of least start from `m` on, among those after `i`. */
  lemma EarliestStart(s: seq<FdeInfo>, i: nat, m: nat) returns (g: nat)
    requires i < m < |s| && s[m].pc_start < s[i].pc_start
    ensures i < g < |s| && forall j :: i <= j < |s| ==> s[g].pc_start <= s[j].pc_start
  {
    g := m;
    for k := i to |s|
      invariant i < g < |s| && s[g].pc_start <= s[m].pc_start
      invariant forall j :: i <= j < k ==> s[g].pc_start <= s[j].pc_start
    {
      if s[k].pc_start < s[g].pc_start { g := k; }
    }
  }

  /** An FDE that leads the table at `pc` contains `pc`, if any FDE does. */
  lemma LeadingFde(s: seq<FdeInfo>, fills: seq<FdeInfo>, r: Row, pc: nat, i: nat, m: nat)
    requires Sorted(s, InfoKey) && Filled(s, 0, fills) && FirstAfter(Rows(s + fills), r, pc)
    requires i < |s| && RowOf(s[i]) == r && PreviousEnd(s, i) <= pc && s[i].pc_start < s[i].pc_end
    requires m < |s| && Contains(s[m], pc)
    ensures s[i].pc_start <= pc
  {
    OnlyLaterContain(s, i, m, pc);
    if pc < s[i].pc_start {
      var g := EarliestStart(s, i, m);
      assert Reaches(s, i, g);
      var f :| f in fills && f.pc_end == s[i].pc_start;
      RowOfFilling(s, fills, f);
    }
  }

  lemma RowOfFilling(s: seq<FdeInfo>, fills: seq<FdeInfo>, f: FdeInfo)
    requires f in fills
    ensures RowOf(f) in Rows(s + fills)
  {
    var k :| 0 <= k < |fills| && fills[k] == f;
    assert Rows(s + fills)[|s| + k] == RowOf(f);
  }

  /** A filling that leads the table at `pc` stands for an FDE that contains `pc`, if any FDE does. */
  lemma LeadingFill(s: seq<FdeInfo>, fills: seq<FdeInfo>, r: Row, pc: nat, f: FdeInfo, i: nat, g: nat)
    requires Sorted(s, InfoKey) && FirstAfter(Rows(s + fills), r, pc) && RowOf(f) == r && Fills(s, f, i, g)
    requires s[i].pc_start < s[i].pc_end
    ensures PreviousEnd(s, i) <= pc < s[g].pc_end
    ensures forall m :: 0 <= m < |s| && Contains(s[m], pc) ==> s[g].pc_start <= pc
  {
    if i > 0 { assert Rows(s + fills)[i - 1] == RowOf(s[i - 1]); }
    assert Leq(InfoKey(s[i]), InfoKey(s[g]));
    forall m | 0 <= m < |s| && Contains(s[m], pc)
      ensures s[g].pc_start <= pc
    {
      OnlyLaterContain(s, i, m, pc);
    }
  }

  lemma LeadingRowOfFde(s: seq<FdeInfo>, fills: seq<FdeInfo>, r: Row, pc: nat, k: nat) returns (f: FdeInfo)
    requires Sorted(s, InfoKey) && Filled(s, 0, fills) && FirstAfter(Rows(s + fills), r, pc)
    requires forall x :: x in s ==> x.pc_start < x.pc_end
    requires k < |s| && RowOf(s[k]) == r
    ensures f in s && f.offset == r.offset && pc < f.pc_end
    ensures (exists x :: x in s && Contains(x, pc)) ==> Contains(f, pc)
  {
    var i := 0;
    while RowOf(s[i]) != r
      invariant i <= k && forall j :: 0 <= j < i ==> RowOf(s[j]) != r
      decreases k - i
    {
      i := i + 1;
    }
    f := s[i];
    RowOfFde(s, fills, r, pc, i);
    if x :| x in s && Contains(x, pc) {
      var m :| 0 <= m < |s| && s[m] == x;
      LeadingFde(s, fills, r, pc, i, m);
    }
  }

  /** The first row after `pc` leads to an FDE that ends after `pc`, and that contains `pc` if any FDE does. */
  lemma LeadingRow(s: seq<FdeInfo>, fills: seq<FdeInfo>, r: Row, pc: nat) returns (f: FdeInfo)
    requires Sorted(s, InfoKey) && Filled(s, 0, fills) && FirstAfter(Rows(s + fills), r, pc)
    requires forall x :: x in s ==> x.pc_start < x.pc_end
    ensures f in s && f.offset == r.offset && pc < f.pc_end
    ensures (exists x :: x in s && Contains(x, pc)) ==> Contains(f, pc)
  {
    var k :| 0 <= k < |s + fills| && Rows(s + fills)[k] == r;
    if k < |s| {
      f := LeadingRowOfFde(s, fills, r, pc, k);
    } else {
      var fill := fills[k - |s|];
      assert IsFilling(s, fill);
      var i: nat, g: nat :| Fills(s, fill, i, g);
      LeadingFill(s, fills, r, pc, fill, i, g);
      f := s[g];
    }
  }

  /** In a sorted table, the row found by `UpperBound` is the first one after `pc`. */
  lemma FirstOfSorted(table: seq<Row>, rows: seq<Row>, k: nat, pc: nat)
    requires Sorted(table, RowKey) && multiset(table) == multiset(rows) && k < |table|
    requires (forall i :: 0 <= i < k ==> table[i].pc_end <= pc) && pc < table[k].pc_end
    ensures FirstAfter(rows, table[k], pc)
  {
    assert table[k] in multiset(rows);
    forall x | x in rows && pc < x.pc_end
      ensures Leq(RowKey(table[k]), RowKey(x))
    {
      assert x in multiset(table);
      var i :| 0 <= i < |table| && table[i] == x;
    }
  }

  /** If no row ends after `pc`, no FDE does. */
  lemma NoneAfter(table: seq<Row>, s: seq<FdeInfo>, fills: seq<FdeInfo>, pc: nat)
    requires multiset(table) == multiset(Rows(s + fills)) && forall i :: 0 <= i < |table| ==> table[i].pc_end <= pc
    ensures forall x :: x in s ==> !Contains(x, pc)
  {
    forall x | x in s
      ensures !Contains(x, pc)
    {
      var j :| 0 <= j < |s| && s[j] == x;
      assert Rows(s + fills)[j] == RowOf(x);
      assert RowOf(x) in multiset(table);
    }
  }

  lemma SameMembers(s: seq<FdeInfo>, t: seq<FdeInfo>)
    requires multiset(s) == multiset(t)
    ensures forall x :: x in s <==> x in t
  {
    forall x
      ensures x in s <==> x in t
    {
      assert x in multiset(s) <==> x in multiset(t);
    }
  }

  class DwarfSection {
    const entry: nat -> Entry
    const start: nat
    const end: nat
    var fde_index: seq<Row>

    constructor (entry: nat -> Entry, start: nat, end: nat)
      ensures Valid() && this.entry == entry && this.start == start && this.end == end
    {
      this.entry, this.start, this.end := entry, start, end;
      fde_index := [];
    }

    ghost function Fdes(): seq<FdeInfo> {
      Scan(entry, start, end)
    }

    /** The table, once built, comes from the FDEs of the section and their fillings. */
    ghost predicate Built()
      reads this
    {
      exists s, fills :: BuiltFrom(s, fills)
    }

    ghost predicate BuiltFrom(s: seq<FdeInfo>, fills: seq<FdeInfo>)
      reads this
    {
      && Sorted(s, InfoKey) && multiset(s) == multiset(Fdes()) && Filled(s, 0, fills)
      && Sorted(fde_index, RowKey) && multiset(fde_index) == multiset(Rows(s + fills))
    }

    ghost predicate Valid()
      reads this
    {
      fde_index == [] || Built()
    }

    /** Collects the FDEs of the section. */
    method ScanFdes() returns (fdes: seq<FdeInfo>)
      ensures fdes == Fdes()
    {
      hide Scan, Met;
      fdes := [];
      var offset := start;
      while offset < end
        invariant fdes + Scan(entry, offset, end) == Fdes()
        decreases end - offset
      {
        var initial_offset := offset;
        ScanOn(entry, offset, end, fdes);
        var e := entry(offset);
        if e.Unreadable? { return; }
        fdes := fdes + Met(entry, offset);
        offset := e.next;
        if offset <= initial_offset { return; }
      }
      ScanEnds(entry, offset, end, fdes);
    }

    /** The fillings for a sorted list of FDEs, found from the last one backwards. */
    static method FillGaps(s: seq<FdeInfo>) returns (fills: seq<FdeInfo>)
      ensures Filled(s, 0, fills)
    {
      fills := [];
      if s == [] { return; }
      var filling := s[|s| - 1];
      ghost var g := |s| - 1;
      var i := |s| - 1;
      while i >= 0
        invariant -1 <= i < |s| && 0 <= g < |s| && i <= g && filling == s[g] && (g == i ==> i + 1 == |s|)
        invariant forall j :: i < j < |s| ==> s[g].pc_start <= s[j].pc_start
        invariant Filled(s, i + 1, fills)
      {
        FilledStep(s, i, fills, g);
        if PreviousEnd(s, i) < s[i].pc_start && filling.pc_start < s[i].pc_start {
          fills := fills + [FdeInfo(filling.pc_start, s[i].pc_start, filling.offset)];
        }
        if s[i].pc_start < filling.pc_start {
          filling, g := s[i], i;
        }
        i := i - 1;
      }
    }

    method BuildFdeIndex()
      modifies this
      ensures Built()
    {
      var fdes := ScanFdes();
      SortSorts(fdes, InfoKey);
      fdes := Sort(fdes, InfoKey);
      var fills := FillGaps(fdes);
      var rows := Rows(fdes + fills);
      SortSorts(rows, RowKey);
      fde_index := Sort(rows, RowKey);
      assert BuiltFrom(fdes, fills);
    }

    /** The first row that ends after `pc`. */
    static method UpperBound(rows: seq<Row>, pc: nat) returns (k: nat)
      requires Sorted(rows, RowKey)
      ensures k <= |rows| && (forall i :: 0 <= i < k ==> rows[i].pc_end <= pc)
              && (forall i :: k <= i < |rows| ==> pc < rows[i].pc_end)
    {
      k := 0;
      var hi := |rows|;
      while k < hi
        invariant k <= hi <= |rows|
        invariant (forall i :: 0 <= i < k ==> rows[i].pc_end <= pc)
                  && (forall i :: hi <= i < |rows| ==> pc < rows[i].pc_end)
      {
        var mid := (k + hi) / 2;
        assert forall i :: 0 <= i < mid ==> Leq(RowKey(rows[i]), RowKey(rows[mid]));
        assert forall i :: mid < i < |rows| ==> Leq(RowKey(rows[mid]), RowKey(rows[i]));
        if pc < rows[mid].pc_end { hi := mid; } else { k := mid + 1; }
      }
    }

    /** An FDE that contains `pc`, exactly if the section has one. */
    method GetFdeFromPc(pc: nat) returns (fde: Option<FdeInfo>)
      requires Valid()
      modifies this
      ensures Valid()
      ensures fde.Some? <==> exists f :: f in Fdes() && Contains(f, pc)
      ensures fde.Some? ==> fde.value in Fdes() && Contains(fde.value, pc)
      ensures fde.Some? <==> exists path :: Path(entry, start, end, path) && Covers(entry, path, pc)
      ensures fde.Some? ==>
                && entry(fde.value.offset).Fde? && entry(fde.value.offset).pc_start == fde.value.pc_start <= pc
                && pc < fde.value.pc_end == entry(fde.value.offset).pc_end
                && exists path :: Path(entry, start, end, path) && path[|path| - 1] == fde.value.offset
    {
      if fde_index == [] {
        BuildFdeIndex();
      }
      ghost var s, fills :| BuiltFrom(s, fills);
      SameMembers(s, Fdes());
      ScanListed(entry, start, end);
      forall path | Path(entry, start, end, path) && Covers(entry, path, pc)
        ensures exists f :: f in Fdes() && Contains(f, pc)
      {
        PathScanned(entry, start, end, path, pc);
      }
      var k := UpperBound(fde_index, pc);
      if k == |fde_index| {
        NoneAfter(fde_index, s, fills, pc);
        return None;
      }
      var row := fde_index[k];
      FirstOfSorted(fde_index, Rows(s + fills), k, pc);
      ghost var f := LeadingRow(s, fills, row, pc);
      var e := entry(row.offset);
      fde := if e.Fde? && e.pc_start <= pc then Some(FdeInfo(e.pc_start, e.pc_end, row.offset)) else None;
      assert f == FdeInfo(e.pc_start, e.pc_end, row.offset);
      if fde.Some? {
        ghost var path := ScannedPath(entry, start, end, f);
        assert Covers(entry, path, pc);
      }
    }
  }
}
