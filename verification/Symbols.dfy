/**
 Function names by address.

 Symbols are searched by bisection.  Those that were read are cached by the
 address of their end, and the cache narrows later searches.  The table is first
 taken to be sorted; when a search fails, a sorted list of its functions is made
 and used from then on.
 */
module Symbols {
  import opened OrderedKeys
  import opened Sorting
  import opened WordSizes

  /** A symbol; `name` is absent if it lies outside the string table or cannot be read. */
  datatype Sym = Sym(value: nat, size: nat, func: bool, name: Option<string>)

  /** A symbol that cannot be read is absent. */
  type Table = seq<Option<Sym>>

  datatype Info = Info(size: nat, index: nat, name: Option<string>)

  predicate Contains(s: Sym, addr: nat) {
    s.value <= addr < s.value + s.size
  }

  /** Where a symbol ends, in the arithmetic of its address type. */
  function End(s: Sym, limit: nat): int {
    if s.value + s.size < limit then s.value + s.size else s.value + s.size - limit
  }

  /** The start of a cached symbol, as it is got back from its end. */
  function CachedStart(key: nat, info: Info): int {
    if info.size <= key then key - info.size else key - info.size + TWO_64
  }

  /** The symbol does not wrap around, and its size survives the cache. */
  predicate Fits(s: Sym, limit: nat) {
    s.value + s.size < limit && s.size < TWO_32
  }

  predicate AllFit(t: Table, limit: nat) {
    forall i :: 0 <= i < |t| && t[i].Some? ==> Fits(t[i].value, limit)
  }

  /** The cached entry of a symbol answers for exactly the addresses of the symbol if and only if its size fits. */
  lemma CachedIsExact(s: Sym, index: nat, limit: nat)
    requires limit <= TWO_64 && s.value + s.size < limit && s.size > 0
    ensures var start := CachedStart(End(s, limit), Info(s.size % TWO_32, index, None));
            (forall addr: nat :: start <= addr < End(s, limit) <==> Contains(s, addr)) <==> s.size < TWO_32
  {
    var info := Info(s.size % TWO_32, index, None);
    if s.size >= TWO_32 {
      assert CachedStart(End(s, limit), info) == End(s, limit) - s.size % TWO_32 > s.value;
      assert Contains(s, s.value);
    }
  }

  // ----- what a lookup should find

  /** The first symbol of the list that contains the address. */
  ghost function LinearScan(view: Table, addr: nat): Option<nat> {
    if view == [] then None
    else if Last(view).Some? && Contains(Last(view).value, addr) && LinearScan(view[..|view| - 1], addr).None?
    then Some(|view| - 1)
    else LinearScan(view[..|view| - 1], addr)
  }

  function Last(view: Table): Option<Sym>
    requires view != []
  {
    view[|view| - 1]
  }

  lemma {:induction false} LinearScanFinds(view: Table, addr: nat)
    ensures LinearScan(view, addr).Some? ==>
              var i := LinearScan(view, addr).value;
              && i < |view| && view[i].Some? && Contains(view[i].value, addr)
              && forall j :: 0 <= j < i ==> view[j].None? || !Contains(view[j].value, addr)
    ensures LinearScan(view, addr).None? ==>
              forall i :: 0 <= i < |view| ==> view[i].None? || !Contains(view[i].value, addr)
  {
    if view != [] {
      var rest := view[..|view| - 1];
      LinearScanFinds(rest, addr);
      assert forall i :: 0 <= i < |rest| ==> rest[i] == view[i];
    }
  }

  ghost predicate Apart(view: Table, i: nat, j: nat)
    requires i < |view| && j < |view|
  {
    view[i].Some? && view[j].Some? && view[i].value.value + view[i].value.size <= view[j].value.value
  }

  /** All symbols of the list can be read, are not empty, and follow each other. */
  ghost predicate Disjoint(view: Table) {
    && (forall i :: 0 <= i < |view| ==> view[i].Some? && view[i].value.size > 0)
    && forall i, j {:trigger Apart(view, i, j)} :: 0 <= i < j < |view| ==> Apart(view, i, j)
  }

  // ----- the cache

  /** A cache entry stands for a symbol of the list. */
  ghost predicate Stands(view: Table, limit: nat, key: nat, info: Info) {
    && info.index < |view| && view[info.index].Some?
    && var s := view[info.index].value;
       key == End(s, limit) && info.size == s.size % TWO_32 && (info.name.Some? ==> s.func && info.name == s.name)
  }

  ghost predicate Cached(view: Table, limit: nat, symbols: map<nat, Info>) {
    forall key {:trigger symbols[key]} :: key in symbols ==> Stands(view, limit, key, symbols[key])
  }

  /** What lies outside the range that is still searched. */
  ghost predicate Narrowed(view: Table, addr: nat, first: nat, last: nat) {
    && last <= |view|
    && (0 < first <= |view| ==>
          view[first - 1].Some? && view[first - 1].value.value + view[first - 1].value.size <= addr)
    && (last < |view| ==> view[last].Some? && addr < view[last].value.value)
    && first <= last
  }

  /** The search ends with nothing only if no symbol contains the address. */
  lemma NarrowedToNothing(view: Table, addr: nat, first: nat)
    requires Disjoint(view) && Narrowed(view, addr, first, first)
    ensures LinearScan(view, addr).None?
  {
    LinearScanFinds(view, addr);
    forall i | 0 <= i < |view|
      ensures !Contains(view[i].value, addr)
    {
      assert i < first - 1 ==> Apart(view, i, first - 1);
      assert first < i ==> Apart(view, first, i);
    }
  }

  /** In a disjoint list a symbol that contains the address is the one the scan finds. */
  lemma OnlyOne(view: Table, addr: nat, i: nat)
    requires Disjoint(view) && i < |view| && Contains(view[i].value, addr)
    ensures LinearScan(view, addr) == Some(i)
  {
    LinearScanFinds(view, addr);
    forall j | 0 <= j < i
      ensures !Contains(view[j].value, addr)
    {
      assert Apart(view, j, i);
    }
  }

  /** The neighbours of the address in the cache leave the symbol that contains it in the range. */
  lemma NeighboursNarrow(view: Table, limit: nat, symbols: map<nat, Info>, addr: nat, it: Option<nat>,
                         before: Option<nat>)
    requires Disjoint(view) && AllFit(view, limit) && limit <= TWO_64 && Cached(view, limit, symbols)
    requires it.Some? ==> it.value in symbols && addr < it.value && addr < CachedStart(it.value, symbols[it.value])
    requires before.Some? ==> before.value in symbols && before.value <= addr
    ensures Narrowed(view, addr, if before.Some? then symbols[before.value].index + 1 else 0,
                     if it.Some? then symbols[it.value].index else |view|)
  {
    if it.Some? { assert Stands(view, limit, it.value, symbols[it.value]); }
    if before.Some? { assert Stands(view, limit, before.value, symbols[before.value]); }
    if it.Some? && before.Some? {
      var f, l := symbols[before.value].index, symbols[it.value].index;
      assert l < f ==> Apart(view, l, f);
    }
  }

  // ----- the list of functions

  function Addr(t: Table, i: nat): nat {
    if i < |t| && t[i].Some? then t[i].value.value else 0
  }

  predicate IsFunction(t: Table, i: nat) {
    i < |t| && t[i].Some? && t[i].value.func && t[i].value.size != 0
  }

  /** A function that comes before any symbol that cannot be read. */
  ghost predicate Candidate(t: Table, i: nat) {
    IsFunction(t, i) && forall j :: 0 <= j < i ==> t[j].Some?
  }

  ghost predicate Below(t: Table, r: seq<nat>, k: nat, l: nat)
    requires k < |r| && l < |r|
  {
    Addr(t, r[k]) < Addr(t, r[l])
  }

  /** The list has a function with the address of symbol `i`, and of those the first in the table. */
  ghost predicate Kept(t: Table, r: seq<nat>, i: nat) {
    exists k :: 0 <= k < |r| && Addr(t, r[k]) == Addr(t, i) && r[k] <= i
  }

  /** One function for each address of a function, the first one, by increasing address. */
  ghost predicate IsRemap(t: Table, r: seq<nat>) {
    && (forall k :: 0 <= k < |r| ==> Candidate(t, r[k]))
    && Ascends(t, r)
    && forall i {:trigger Kept(t, r, i)} :: Candidate(t, i) ==> Kept(t, r, i)
  }

  /** The list of symbols that is searched. */
  function View(t: Table, remap: Option<seq<nat>>): (view: Table)
    ensures |view| == if remap.Some? then |remap.value| else |t|
  {
    match remap
    case None => t
    case Some(r) => seq(|r|, k requires 0 <= k < |r| => if r[k] < |t| then t[r[k]] else None)
  }

  lemma ViewFits(t: Table, remap: Option<seq<nat>>, limit: nat)
    requires AllFit(t, limit)
    ensures AllFit(View(t, remap), limit)
  {
  }

  predicate SameOrApart(a: Sym, b: Sym) {
    || (a.value == b.value && a.size == b.size)
    || a.value + a.size <= b.value || b.value + b.size <= a.value
  }

  /** Functions overlap only if they are the same. */
  ghost predicate Separate(t: Table) {
    forall i: nat, j: nat :: IsFunction(t, i) && IsFunction(t, j) ==> SameOrApart(t[i].value, t[j].value)
  }

  lemma RemapIsDisjoint(t: Table, r: seq<nat>)
    requires IsRemap(t, r) && Separate(t)
    ensures Disjoint(View(t, Some(r)))
  {
    var view := View(t, Some(r));
    forall k | 0 <= k < |r|
      ensures view[k] == t[r[k]] && IsFunction(t, r[k])
    {
      assert Candidate(t, r[k]);
    }
    forall k, l | 0 <= k < l < |view|
      ensures Apart(view, k, l)
    {
      assert Below(t, r, k, l) && IsFunction(t, r[k]) && IsFunction(t, r[l]);
    }
  }

  /** A function of the table is found in the list. */
  lemma RemapCovers(t: Table, r: seq<nat>, i: nat, addr: nat) returns (k: nat)
    requires IsRemap(t, r) && Separate(t) && Candidate(t, i) && Contains(t[i].value, addr)
    ensures k < |r| && View(t, Some(r))[k].Some? && Contains(View(t, Some(r))[k].value, addr)
  {
    assert Kept(t, r, i);
    k :| 0 <= k < |r| && Addr(t, r[k]) == Addr(t, i) && r[k] <= i;
    assert Candidate(t, r[k]);
    assert IsFunction(t, r[k]) && IsFunction(t, i);
    assert SameOrApart(t[r[k]].value, t[i].value);
  }

  /** The functions in table order. */
  method ListFunctions(t: Table) returns (funcs: seq<nat>)
    ensures forall i: nat :: i in funcs <==> Candidate(t, i)
  {
    funcs := [];
    var i := 0;
    while i < |t| && t[i].Some?
      invariant 0 <= i <= |t| && forall j :: 0 <= j < i ==> t[j].Some?
      invariant forall j: nat :: j in funcs <==> j < i && IsFunction(t, j)
    {
      if t[i].value.func && t[i].value.size != 0 {
        funcs := funcs + [i];
      }
      i := i + 1;
    }
  }

  ghost predicate Ascends(t: Table, r: seq<nat>) {
    forall k, l {:trigger Below(t, r, k, l)} :: 0 <= k < l < |r| ==> Below(t, r, k, l)
  }

  function ByAddress(t: Table): nat -> Key {
    i => (Addr(t, i), i)
  }

  /** What is kept of the first `j` elements. */
  ghost predicate Uniqued(t: Table, sorted: seq<nat>, j: nat, r: seq<nat>) {
    && j <= |sorted| && (j == 0 <==> r == []) && Ascends(t, r)
    && (forall k :: 0 <= k < |r| ==> r[k] in sorted)
    && (j > 0 ==> Addr(t, r[|r| - 1]) == Addr(t, sorted[j - 1]) && r[|r| - 1] <= sorted[j - 1])
    && forall m :: 0 <= m < j ==> Kept(t, r, sorted[m])
  }

  lemma UniqueStep(t: Table, sorted: seq<nat>, j: nat, r: seq<nat>, r': seq<nat>)
    requires Uniqued(t, sorted, j, r) && j < |sorted| && Sorted(sorted, ByAddress(t))
    requires r' == if r == [] || Addr(t, r[|r| - 1]) != Addr(t, sorted[j]) then r + [sorted[j]] else r
    ensures Uniqued(t, sorted, j + 1, r')
  {
    hide Kept, Ascends;
    assert j > 0 ==> Leq(ByAddress(t)(sorted[j - 1]), ByAddress(t)(sorted[j]));
    if r' != r { UniqueAppends(t, r, sorted[j]); }
    forall m | 0 <= m < j + 1
      ensures Kept(t, r', sorted[m])
    {
      if m < j { KeptGrows(t, r, sorted[j], sorted[m]); } else { KeptLast(t, r', sorted[m]); }
    }
  }

  lemma KeptGrows(t: Table, r: seq<nat>, x: nat, i: nat)
    requires Kept(t, r, i)
    ensures Kept(t, r + [x], i)
  {
    var k :| 0 <= k < |r| && Addr(t, r[k]) == Addr(t, i) && r[k] <= i;
    assert (r + [x])[k] == r[k];
  }

  lemma KeptLast(t: Table, r: seq<nat>, i: nat)
    requires r != [] && Addr(t, r[|r| - 1]) == Addr(t, i) && r[|r| - 1] <= i
    ensures Kept(t, r, i)
  {
    var k := |r| - 1;
    assert Addr(t, r[k]) == Addr(t, i);
  }

  /** Drops each element whose address is that of the one before. */
  method Unique(t: Table, sorted: seq<nat>) returns (r: seq<nat>)
    requires Sorted(sorted, ByAddress(t))
    ensures Uniqued(t, sorted, |sorted|, r)
  {
    hide Uniqued, Sorted;
    r := [];
    assert Uniqued(t, sorted, 0, r) by { UniqueBegins(t, sorted); }
    for j := 0 to |sorted|
      invariant Uniqued(t, sorted, j, r)
    {
      ghost var r0 := r;
      if r == [] || Addr(t, r[|r| - 1]) != Addr(t, sorted[j]) {
        r := r + [sorted[j]];
      }
      UniqueStep(t, sorted, j, r0, r);
    }
  }

  lemma UniqueBegins(t: Table, sorted: seq<nat>)
    ensures Uniqued(t, sorted, 0, [])
  {
  }

  /** Sorted and without duplicates, the functions are what the search needs. */
  lemma UniquedIsRemap(t: Table, funcs: seq<nat>, r: seq<nat>)
    requires forall i: nat :: i in funcs <==> Candidate(t, i)
    requires Uniqued(t, Sort(funcs, ByAddress(t)), |funcs|, r) && |Sort(funcs, ByAddress(t))| == |funcs|
    ensures IsRemap(t, r)
  {
    var sorted := Sort(funcs, ByAddress(t));
    SortKeeps(funcs, ByAddress(t));
    forall k | 0 <= k < |r|
      ensures Candidate(t, r[k])
    {
      assert r[k] in sorted;
    }
    forall i | Candidate(t, i)
      ensures Kept(t, r, i)
    {
      assert i in sorted;
      var m :| 0 <= m < |sorted| && sorted[m] == i;
    }
  }

  lemma UniqueAppends(t: Table, r: seq<nat>, x: nat)
    requires Ascends(t, r)
    requires r == [] || Addr(t, r[|r| - 1]) < Addr(t, x)
    ensures Ascends(t, r + [x])
  {
    forall k, l | 0 <= k < l < |r + [x]|
      ensures Below(t, r + [x], k, l)
    {
      assert l < |r| ==> Below(t, r, k, l);
      assert k < |r| - 1 ==> Below(t, r, k, |r| - 1);
    }
  }

  // ----- lookups

  /** Symbol `index` of the list contains the address, at this offset. */
  ghost predicate Hit(view: Table, index: nat, addr: nat, func_offset: nat) {
    && index < |view| && view[index].Some? && Contains(view[index].value, addr)
    && func_offset == addr - view[index].value.value
  }

  /** What a lookup has to answer: a symbol with the address, and the only one if they do not overlap. */
  ghost predicate Answers(view: Table, limit: nat, addr: nat, symbols: map<nat, Info>, found: Option<nat>,
                          func_offset: nat) {
    && (found.Some? ==> found.value in symbols)
    && (AllFit(view, limit) ==>
          && (found.Some? ==> Hit(view, symbols[found.value].index, addr, func_offset))
          && (Disjoint(view) ==>
                LinearScan(view, addr) == if found.Some? then Some(symbols[found.value].index) else None))
  }

  lemma AnsweredByCache(view: Table, limit: nat, symbols: map<nat, Info>, addr: nat, key: nat)
    requires limit <= TWO_64 && Cached(view, limit, symbols)
    requires key in symbols && CachedStart(key, symbols[key]) <= addr < key
    ensures Answers(view, limit, addr, symbols, Some(key), addr - CachedStart(key, symbols[key]))
  {
    assert Stands(view, limit, key, symbols[key]);
    if AllFit(view, limit) && Disjoint(view) { OnlyOne(view, addr, symbols[key].index); }
  }

  lemma Caches(view: Table, limit: nat, symbols: map<nat, Info>, current: nat)
    requires Cached(view, limit, symbols) && current < |view| && view[current].Some?
    ensures var s := view[current].value;
            Cached(view, limit, symbols[End(s, limit) := Info(s.size % TWO_32, current, None)])
  {
  }

  lemma AnsweredByRead(view: Table, limit: nat, symbols: map<nat, Info>, addr: nat, current: nat)
    requires current < |view| && view[current].Some?
    requires End(view[current].value, limit) in symbols && symbols[End(view[current].value, limit)].index == current
    requires view[current].value.value <= addr < End(view[current].value, limit)
    ensures Answers(view, limit, addr, symbols, Some(End(view[current].value, limit)), addr - view[current].value.value)
  {
    if AllFit(view, limit) && Disjoint(view) { OnlyOne(view, addr, current); }
  }

  lemma Unreadable(view: Table, limit: nat, addr: nat, symbols: map<nat, Info>, current: nat)
    requires current < |view| && view[current].None?
    ensures Answers(view, limit, addr, symbols, None, 0)
  {
  }

  /** What is known of the range that is still searched. */
  ghost predicate Searching(view: Table, limit: nat, addr: nat, first: nat, last: nat) {
    AllFit(view, limit) && Disjoint(view) ==> Narrowed(view, addr, first, last)
  }

  lemma SearchBegins(view: Table, limit: nat, symbols: map<nat, Info>, addr: nat, it: Option<nat>, before: Option<nat>)
    requires limit <= TWO_64 && Cached(view, limit, symbols)
    requires it.Some? ==> it.value in symbols && addr < it.value && addr < CachedStart(it.value, symbols[it.value])
    requires before.Some? ==> before.value in symbols && before.value <= addr
    ensures Searching(view, limit, addr, if before.Some? then symbols[before.value].index + 1 else 0,
                      if it.Some? then symbols[it.value].index else |view|)
    ensures it.Some? ==> symbols[it.value].index < |view|
  {
    if it.Some? { assert Stands(view, limit, it.value, symbols[it.value]); }
    if AllFit(view, limit) && Disjoint(view) { NeighboursNarrow(view, limit, symbols, addr, it, before); }
  }

  lemma SearchNarrows(view: Table, limit: nat, addr: nat, first: nat, current: nat, last: nat)
    requires Searching(view, limit, addr, first, last) && first <= current < last <= |view| && view[current].Some?
    ensures addr < view[current].value.value ==> Searching(view, limit, addr, first, current)
    ensures End(view[current].value, limit) <= addr ==> Searching(view, limit, addr, current + 1, last)
  {
  }

  lemma SearchFails(view: Table, limit: nat, addr: nat, symbols: map<nat, Info>, first: nat, last: nat)
    requires Searching(view, limit, addr, first, last) && first >= last
    ensures Answers(view, limit, addr, symbols, None, 0)
  {
    if AllFit(view, limit) && Disjoint(view) { NarrowedToNothing(view, addr, first); }
  }

  class Symbols {
    const table: Table
    const limit: nat
    var symbols: map<nat, Info>
    var remap: Option<seq<nat>>

    ghost predicate Valid()
      reads this
    {
      && limit <= TWO_64 && (remap.Some? ==> IsRemap(table, remap.value))
      && Cached(View(table, remap), limit, symbols)
    }

    constructor (table: Table, limit: nat)
      requires limit <= TWO_64
      ensures Valid() && this.table == table && this.limit == limit && remap.None?
    {
      this.table, this.limit, symbols, remap := table, limit, map[], None;
    }

    method ClearCache()
      requires Valid()
      modifies this
      ensures Valid() && symbols == map[] && remap.None?
    {
      symbols, remap := map[], None;
    }

    /** The cached symbol that contains the address, read if it has to be. */
    method BinarySearch(addr: nat) returns (found: Option<nat>, func_offset: nat)
      requires Valid()
      modifies `symbols
      ensures Valid()
      ensures Answers(View(table, remap), limit, addr, symbols, found, func_offset)
    {
      hide Answers, Searching, Cached, IsRemap, View;
      ghost var view := View(table, remap);
      var it := UpperBound(symbols.Keys, addr);
      if it.Some? {
        var sym_value := CachedStart(it.value, symbols[it.value]);
        if sym_value <= addr {
          AnsweredByCache(view, limit, symbols, addr, it.value);
          return it, addr - sym_value;
        }
      }
      var before := Before(symbols.Keys, addr);
      SearchBegins(view, limit, symbols, addr, it, before);
      var count := if remap.Some? then |remap.value| else |table|;
      var last: nat := if it.Some? then symbols[it.value].index else count;
      var first: nat := if before.Some? then symbols[before.value].index + 1 else 0;
      while first < last
        invariant last <= |view| && Searching(view, limit, addr, first, last) && Cached(view, limit, symbols)
      {
        var current := first + (last - first) / 2;
        var sym := View(table, remap)[current];
        if sym.None? {
          Unreadable(view, limit, addr, symbols, current);
          return None, 0;
        }
        var key := End(sym.value, limit);
        Caches(view, limit, symbols, current);
        symbols := symbols[key := Info(sym.value.size % TWO_32, current, None)];
        SearchNarrows(view, limit, addr, first, current, last);
        if addr < sym.value.value {
          last := current;
        } else if addr < key {
          AnsweredByRead(view, limit, symbols, addr, current);
          return Some(key), addr - sym.value.value;
        } else {
          first := current + 1;
        }
      }
      SearchFails(view, limit, addr, symbols, first, last);
      return None, 0;
    }

    method BuildRemapTable()
      requires Valid()
      modifies this
      ensures remap.Some? && IsRemap(table, remap.value) && symbols == old(symbols)
    {
      var funcs := ListFunctions(table);
      SortSorts(funcs, ByAddress(table));
      SortKeeps(funcs, ByAddress(table));
      var r := Unique(table, Sort(funcs, ByAddress(table)));
      UniquedIsRemap(table, funcs, r);
      remap := Some(r);
    }

    /**
     The name of a function that contains the address.  If functions do not
     overlap and all of the table can be read, there is a name exactly if there is
     a function, unless something else claims the address.
     */
    method GetName(addr: nat) returns (name: Option<string>, func_offset: nat)
      requires Valid()
      modifies this
      ensures Valid() && (old(remap).Some? ==> remap == old(remap))
      ensures AllFit(table, limit) && name.Some? ==> exists i :: Names(table, i, addr, func_offset, name)
      ensures Findable(table, limit, addr) ==>
                (name.Some? <==> exists i: nat :: IsFunction(table, i) && Contains(table[i].value, addr))
    {
      hide Answers, Cached, AllFit, IsRemap, View, Findable, Names;
      var info;
      info, func_offset := BinarySearch(addr);
      if remap.None? && info.None? {
        BuildRemapTable();
        symbols := map[];
        NothingCached(View(table, remap), limit);
        info, func_offset := BinarySearch(addr);
      }
      if info.None? {
        if Findable(table, limit, addr) { NotThere(table, remap, limit, addr, symbols, func_offset); }
        return None, func_offset;
      }
      ghost var i := Found(table, remap, limit, addr, symbols, info.value, func_offset);
      if symbols[info.value].name.None? {
        var sym := View(table, remap)[symbols[info.value].index];
        if sym.None? || sym.value.name.None? || !sym.value.func { return None, func_offset; }
        NameCaches(View(table, remap), limit, symbols, info.value);
        symbols := symbols[info.value := symbols[info.value].(name := sym.value.name)];
      }
      name := symbols[info.value].name;
    }
  }

  lemma NothingCached(view: Table, limit: nat)
    ensures Cached(view, limit, map[])
  {
  }

  lemma NameCaches(view: Table, limit: nat, symbols: map<nat, Info>, key: nat)
    requires Cached(view, limit, symbols) && key in symbols && symbols[key].index < |view|
    requires view[symbols[key].index].Some? && view[symbols[key].index].value.func
    ensures Cached(view, limit, symbols[key := symbols[key].(name := view[symbols[key].index].value.name)])
  {
    assert Stands(view, limit, key, symbols[key]);
  }

  /** A symbol that was found is in the table, and its name may be used if it is a function. */
  lemma Found(t: Table, remap: Option<seq<nat>>, limit: nat, addr: nat, symbols: map<nat, Info>, key: nat,
              func_offset: nat)
    returns (i: nat)
    requires Answers(View(t, remap), limit, addr, symbols, Some(key), func_offset)
             && Cached(View(t, remap), limit, symbols)
    requires remap.Some? ==> IsRemap(t, remap.value)
    ensures i < |t| && key in symbols && symbols[key].index < |View(t, remap)|
            && View(t, remap)[symbols[key].index] == t[i]
    ensures t[i].Some?
    ensures symbols[key].name.Some? ==> t[i].value.func && t[i].value.name == symbols[key].name
    ensures AllFit(t, limit) && t[i].value.func ==> Names(t, i, addr, func_offset, t[i].value.name)
    ensures Findable(t, limit, addr) ==> IsFunction(t, i) && Contains(t[i].value, addr) && t[i].value.name.Some?
  {
    var index := symbols[key].index;
    if AllFit(t, limit) { ViewFits(t, remap, limit); }
    assert Stands(View(t, remap), limit, key, symbols[key]);
    assert remap.Some? ==> Candidate(t, remap.value[index]);
    i := if remap.None? then index else remap.value[index];
  }

  ghost predicate Names(t: Table, i: nat, addr: nat, func_offset: nat, name: Option<string>) {
    Hit(t, i, addr, func_offset) && t[i].value.func && t[i].value.name == name
  }

  /** All symbols can be read and fit, functions are apart and have names, and no other symbol contains the address. */
  ghost predicate Findable(t: Table, limit: nat, addr: nat) {
    && AllFit(t, limit) && Separate(t) && (forall i :: 0 <= i < |t| ==> t[i].Some?)
    && forall i :: 0 <= i < |t| ==> (if t[i].value.func then t[i].value.name.Some? else !Contains(t[i].value, addr))
  }

  /** If nothing was found in the sorted list, no function contains the address. */
  lemma NotThere(t: Table, remap: Option<seq<nat>>, limit: nat, addr: nat, symbols: map<nat, Info>, func_offset: nat)
    requires Findable(t, limit, addr) && remap.Some? && IsRemap(t, remap.value)
    requires Answers(View(t, remap), limit, addr, symbols, None, func_offset)
    ensures forall i: nat :: IsFunction(t, i) ==> !Contains(t[i].value, addr)
  {
    RemapIsDisjoint(t, remap.value);
    ViewFits(t, remap, limit);
    LinearScanFinds(View(t, remap), addr);
    forall i: nat | IsFunction(t, i)
      ensures !Contains(t[i].value, addr)
    {
      if Contains(t[i].value, addr) {
        var k := RemapCovers(t, remap.value, i, addr);
      }
    }
  }
}
