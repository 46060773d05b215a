/**
 The list of memory maps of a process, and its incremental update: maps that did
 not change keep their objects, and the objects stay linked in address order.
 */
module MapList {
  import opened Sorting

  /** One line of the maps file. */
  datatype Region = Region(start: nat, end: nat, offset: nat, flags: nat, name: string)

  /** Two lines stand for the same map; the file offset is not compared. */
  predicate Same(a: Region, b: Region) {
    a.start == b.start && a.end == b.end && a.flags == b.flags && a.name == b.name
  }

  predicate Ascending(s: seq<Region>) {
    forall i, j :: 0 <= i < j < |s| ==> s[i].start < s[j].start
  }

  class MapInfo {
    const region: Region
    var prev: MapInfo?
    var next: MapInfo?

    constructor (prev: MapInfo?, region: Region)
      ensures this.region == region && this.prev == prev && this.next == null
    {
      this.region, this.prev, this.next := region, prev, null;
    }
  }

  ghost function Regions(s: seq<MapInfo>): seq<Region> {
    seq(|s|, i requires 0 <= i < |s| => s[i].region)
  }

  function At(s: seq<MapInfo>, i: int): MapInfo? {
    if 0 <= i < |s| then s[i] else null
  }

  ghost predicate Distinct(s: seq<MapInfo>) {
    forall i, j :: 0 <= i < j < |s| ==> s[i] != s[j]
  }

  ghost predicate LinkedAt(s: seq<MapInfo>, i: nat)
    requires i < |s|
    reads s[i]
  {
    s[i].prev == At(s, i - 1) && s[i].next == At(s, i + 1)
  }

  /** The previous and next links run along the sequence. */
  ghost predicate Chain(s: seq<MapInfo>)
    reads s
  {
    forall i {:trigger LinkedAt(s, i)} :: 0 <= i < |s| ==> LinkedAt(s, i)
  }

  /** New map `i` is replaced in `r` by the old one that is the same, if there is one. */
  ghost predicate MergedAt(o: seq<MapInfo>, n: seq<MapInfo>, r: seq<MapInfo>, i: nat)
    requires i < |n| && i < |r|
  {
    && Same(r[i].region, n[i].region) && (r[i] == n[i] || r[i] in o)
    && forall j :: 0 <= j < |o| && Same(o[j].region, n[i].region) ==> r[i] == o[j]
  }

  ghost predicate Merged(o: seq<MapInfo>, n: seq<MapInfo>, k: nat, r: seq<MapInfo>) {
    && |r| == |n| && k <= |r| && r[k..] == n[k..]
    && forall i {:trigger MergedAt(o, n, r, i)} :: 0 <= i < k ==> MergedAt(o, n, r, i)
  }

  /** `info` takes the place of `new_map`, which is at `k` in the chain. */
  method Relink(new_map: MapInfo, info: MapInfo, ghost s: seq<MapInfo>, ghost k: nat)
    requires k < |s| && s[k] == new_map && Chain(s) && info !in s
    requires Distinct(s)
    modifies s, info
    ensures Chain(s[k := info])
  {
    assert LinkedAt(s, k);
    if k > 0 { assert LinkedAt(s, k - 1); }
    if k + 1 < |s| { assert LinkedAt(s, k + 1); }
    var prev, next := new_map.prev, new_map.next;
    info.prev := prev;
    info.next := next;
    if prev != null { prev.next := info; }
    if next != null { next.prev := info; }
    ghost var s' := s[k := info];
    forall i | 0 <= i < |s|
      ensures LinkedAt(s', i)
    {
      assert old(LinkedAt(s, i));
    }
  }

  /** Creates the maps of a parsed file, each linked to the one before. */
  method Parse(parsed: seq<Region>) returns (maps: seq<MapInfo>)
    ensures Regions(maps) == parsed && Chain(maps) && fresh(maps)
  {
    maps := [];
    var prev: MapInfo? := null;
    for i := 0 to |parsed|
      invariant |maps| == i && Regions(maps) == parsed[..i] && Chain(maps) && fresh(maps)
      invariant Distinct(maps)
      invariant prev == if maps == [] then null else maps[|maps| - 1]
    {
      var map_info := new MapInfo(prev, parsed[i]);
      label before:
      if prev != null { prev.next := map_info; }
      ghost var maps0 := maps;
      maps := maps + [map_info];
      forall k | 0 <= k < |maps|
        ensures LinkedAt(maps, k)
      {
        if k < |maps0| { assert old@before(LinkedAt(maps0, k)); }
      }
      prev := map_info;
    }
  }

  // ----- the merge

  ghost predicate Precedes(s: seq<MapInfo>, i: nat, j: nat)
    requires i < |s| && j < |s|
  {
    s[i].region.start < s[j].region.start
  }

  ghost predicate InOrder(s: seq<MapInfo>) {
    forall i, j {:trigger Precedes(s, i, j)} :: 0 <= i < j < |s| ==> Precedes(s, i, j)
  }

  /** `n` deleted entries. */
  ghost function Nulls(n: nat): multiset<MapInfo?> {
    multiset{}[null := n]
  }

  /** The entries of the list are those of the list to be, the old maps from `search` on, and deleted ones. */
  ghost predicate Accounted(maps: seq<MapInfo?>, o: seq<MapInfo>, c: seq<MapInfo>, search: nat, deleted: nat) {
    search <= |o| && multiset(maps) == multiset(c) + multiset(o[search..]) + Nulls(deleted)
  }

  lemma DeleteAccounted(maps: seq<MapInfo?>, o: seq<MapInfo>, c: seq<MapInfo>, search: nat, deleted: nat)
    requires Accounted(maps, o, c, search, deleted) && search < |o| && search < |maps| && maps[search] == o[search]
    ensures Accounted(maps[search := null], o, c, search + 1, deleted + 1)
  {
    assert o[search..] == [o[search]] + o[search + 1..];
  }

  lemma MatchAccounted(maps: seq<MapInfo?>, o: seq<MapInfo>, c: seq<MapInfo>, search: nat, deleted: nat, at: nat,
                       k: nat)
    requires Accounted(maps, o, c, search, deleted) && search < |o| && at < |maps| && k < |c| && maps[at] == c[k]
    ensures Accounted(maps[at := null], o, c[k := o[search]], search + 1, deleted + 1)
  {
    assert o[search..] == [o[search]] + o[search + 1..];
  }

  /**
   The list while new map `k` is compared with the old maps from `search` on;
   `c` is the list to be.
   */
  ghost predicate Merging(maps: seq<MapInfo?>, o: seq<MapInfo>, n: seq<MapInfo>, c: seq<MapInfo>, search: nat, k: nat) {
    && |maps| == |o| + |n| && search <= |o| && k <= |n| && InOrder(o) && InOrder(n)
    && maps[search..|o|] == o[search..] && maps[|o| + k..] == n[k..]
    && Merged(o, n, k, c)
    && (0 < k && search < |o| ==> n[k - 1].region.start < o[search].region.start)
    && (0 < search && k < |n| ==> Passed(o[search - 1].region, n[k].region))
  }

  /** An old map that need not be looked at again for this new map or later ones. */
  predicate Passed(old_map: Region, new_map: Region) {
    old_map.start <= new_map.start && !Same(old_map, new_map)
  }

  /** No old map before `search` is the same as a new map from `k` on. */
  lemma PassedOnes(o: seq<MapInfo>, n: seq<MapInfo>, search: nat, k: nat, i: nat, j: nat)
    requires InOrder(o) && InOrder(n) && search <= |o| && k < |n|
             && (0 < search ==> Passed(o[search - 1].region, n[k].region))
    requires k <= i < |n| && j < search
    ensures Passed(o[j].region, n[i].region)
  {
    if j < search - 1 { assert Precedes(o, j, search - 1); }
    if k < i { assert Precedes(n, k, i); }
  }

  /** No old map from `search` on is the same as a new map before `k`. */
  lemma ComingOnes(o: seq<MapInfo>, n: seq<MapInfo>, search: nat, k: nat, i: nat, j: nat)
    requires InOrder(o) && InOrder(n) && search < |o| && 0 < k <= |n| && n[k - 1].region.start < o[search].region.start
    requires i < k && search <= j < |o|
    ensures n[i].region.start < o[j].region.start
  {
    if search < j { assert Precedes(o, search, j); }
    if i < k - 1 { assert Precedes(n, i, k - 1); }
  }

  /** Clearing an old map that is not the same as any new one. */
  lemma DeleteStep(maps: seq<MapInfo?>, o: seq<MapInfo>, n: seq<MapInfo>, c: seq<MapInfo>, search: nat, k: nat)
    requires Merging(maps, o, n, c, search, k) && search < |o| && k < |n| && Passed(o[search].region, n[k].region)
    ensures Merging(maps[search := null], o, n, c, search + 1, k) && maps[search] == o[search]
    ensures Gone(o, n, search)
  {
    assert maps[search..|o|][0] == o[search..][0];
    assert maps[search := null][search + 1..|o|] == maps[search..|o|][1..] && o[search + 1..] == o[search..][1..];
    assert maps[search := null][|o| + k..] == maps[|o| + k..];
    forall i | 0 <= i < |n|
      ensures !Same(o[search].region, n[i].region)
    {
      if i < k { ComingOnes(o, n, search, k, i, search); }
      if k < i { assert Precedes(n, k, i); }
    }
    if search + 1 < |o| { assert Precedes(o, search, search + 1); }
  }

  /** No old map is the same as new map `k`. */
  lemma SkipStep(maps: seq<MapInfo?>, o: seq<MapInfo>, n: seq<MapInfo>, c: seq<MapInfo>, search: nat, k: nat)
    requires Merging(maps, o, n, c, search, k) && k < |n|
    requires search < |o| ==> n[k].region.start < o[search].region.start
    ensures Merging(maps, o, n, c, search, k + 1)
  {
    assert maps[|o| + k + 1..] == maps[|o| + k..][1..] && n[k + 1..] == n[k..][1..] && c[k + 1..] == c[k..][1..];
    assert c[k..][0] == n[k..][0];
    assert MergedAt(o, n, c, k) by {
      forall j | 0 <= j < |o|
        ensures !Same(o[j].region, n[k].region)
      {
        if j < search { PassedOnes(o, n, search, k, k, j); }
        else if search < j { assert Precedes(o, search, j); }
      }
    }
    if 0 < search && k + 1 < |n| {
      assert Precedes(n, k, k + 1);
    }
  }

  /** Old map `search` takes the place of new map `k`. */
  lemma MatchStep(maps: seq<MapInfo?>, o: seq<MapInfo>, n: seq<MapInfo>, c: seq<MapInfo>, search: nat, k: nat)
    requires Merging(maps, o, n, c, search, k) && search < |o| && k < |n| && Same(o[search].region, n[k].region)
    ensures |maps| == |o| + |n| && |c| == |n| && maps[|o| + k] == c[k] == n[k]
    ensures Merging(maps[|o| + k := null], o, n, c[k := o[search]], search + 1, k + 1)
  {
    var maps', c' := maps[|o| + k := null], c[k := o[search]];
    assert maps[|o| + k..][0] == n[k..][0] == c[k..][0];
    assert maps'[|o| + k + 1..] == maps[|o| + k..][1..] && n[k + 1..] == n[k..][1..] && c'[k + 1..] == c[k..][1..];
    assert maps'[search + 1..|o|] == maps[search..|o|][1..] && o[search + 1..] == o[search..][1..];
    forall j | 0 <= j < |o| && Same(o[j].region, n[k].region)
      ensures j == search
    {
      assert j < search ==> Precedes(o, j, search);
      assert search < j ==> Precedes(o, search, j);
    }
    assert MergedAt(o, n, c', k);
    forall i | 0 <= i < k
      ensures MergedAt(o, n, c', i)
    {
      assert MergedAt(o, n, c, i);
    }
    if search + 1 < |o| { assert Precedes(o, search, search + 1); }
    if k + 1 < |n| { assert Precedes(n, k, k + 1); }
  }

  /** Once all old maps are settled, no new one is left to be matched. */
  lemma MergeEnds(maps: seq<MapInfo?>, o: seq<MapInfo>, n: seq<MapInfo>, c: seq<MapInfo>, search: nat, k: nat)
    requires Merging(maps, o, n, c, search, k) && (search == |o| || k == |n|)
    ensures Merged(o, n, |n|, c) && InOrder(c)
    ensures forall j :: search <= j < |o| ==> maps[j] == o[j] && Gone(o, n, j)
  {
    forall i | 0 <= i < |n|
      ensures MergedAt(o, n, c, i)
    {
      if i < k {
        assert MergedAt(o, n, c, i);
      } else {
        assert c[k..][i - k] == n[k..][i - k];
        forall j | 0 <= j < |o|
          ensures !Same(o[j].region, n[i].region)
        {
          PassedOnes(o, n, search, k, i, j);
        }
      }
    }
    InOrderLike(o, n, c);
    forall j | search <= j < |o|
      ensures maps[j] == o[j] && Gone(o, n, j)
    {
      assert maps[search..|o|][j - search] == o[search..][j - search];
      forall i | 0 <= i < |n|
        ensures !Same(o[j].region, n[i].region)
      {
        ComingOnes(o, n, search, k, i, j);
      }
    }
  }

  lemma InOrderLike(o: seq<MapInfo>, n: seq<MapInfo>, c: seq<MapInfo>)
    requires Merged(o, n, |n|, c) && InOrder(n)
    ensures InOrder(c)
  {
    forall i, j | 0 <= i < j < |c|
      ensures Precedes(c, i, j)
    {
      assert MergedAt(o, n, c, i) && MergedAt(o, n, c, j) && Precedes(n, i, j);
    }
  }

  /** An old map that is not the same as any new one. */
  ghost predicate Gone(o: seq<MapInfo>, n: seq<MapInfo>, j: nat) {
    j < |o| && forall i :: 0 <= i < |n| ==> !Same(o[j].region, n[i].region)
  }

  const NullLast := (m: MapInfo?) => if m == null then (1, 0) else (0, m.region.start)

  /** Sorting puts the list in order, with the deleted entries at the end. */
  lemma SortedResult(maps: seq<MapInfo?>, c: seq<MapInfo>, deleted: nat)
    requires multiset(maps) == multiset(c) + Nulls(deleted) && InOrder(c)
    ensures |maps| == |Sort(maps, NullLast)| == |c| + deleted
    ensures Sort(maps, NullLast)[..|c|] == c
  {
    hide Sorted, InOrder, Sort;
    var nulls: seq<MapInfo?> := seq(deleted, _ => null);
    NullsAre(nulls);
    SortSorts(maps, NullLast);
    PaddedInOrder(c, nulls);
    var t: seq<MapInfo?> := c + nulls;
    assert multiset(t) == multiset(maps);
    SortedUnique(t, Sort(maps, NullLast), NullLast);
    SameLength(maps, t);
  }

  lemma SameLength(a: seq<MapInfo?>, b: seq<MapInfo?>)
    requires multiset(a) == multiset(b)
    ensures |a| == |b|
  {
    assert |multiset(a)| == |a| && |multiset(b)| == |b|;
  }

  lemma PaddedInOrder(c: seq<MapInfo>, nulls: seq<MapInfo?>)
    requires InOrder(c) && forall i :: 0 <= i < |nulls| ==> nulls[i] == null
    ensures Sorted(c + nulls, NullLast)
    ensures forall x, y :: x in c + nulls && y in c + nulls && NullLast(x) == NullLast(y) ==> x == y
  {
    assert forall i, j :: 0 <= i < j < |c| ==> Precedes(c, i, j) && c[i].region.start < c[j].region.start;
  }

  lemma NullsAre(s: seq<MapInfo?>)
    requires forall i :: 0 <= i < |s| ==> s[i] == null
    ensures multiset(s) == Nulls(|s|)
  {
    if s != [] {
      NullsAre(s[1..]);
      assert s == [s[0]] + s[1..];
    }
  }

  /** What the counters say: how many old and new entries were cleared, and whether anything changed. */
  ghost predicate Counted(o: seq<MapInfo>, n: seq<MapInfo>, c: seq<MapInfo>, search: nat, k: nat,
                          deleted_old: nat, deleted_new: nat) {
    && search == deleted_old + deleted_new && search <= |o| && deleted_new <= k <= |c|
    && (deleted_old == 0 && deleted_new == k ==> forall i :: 0 <= i < k ==> c[i] == o[i])
    && (deleted_old > 0 ==> exists j :: Gone(o, n, j))
  }

  lemma ChangedMeans(o: seq<MapInfo>, n: seq<MapInfo>, c: seq<MapInfo>, k: nat, deleted_old: nat, deleted_new: nat)
    requires Counted(o, n, c, |o|, k, deleted_old, deleted_new) && Merged(o, n, |n|, c)
    ensures deleted_old != 0 || |c| != |o| <==> c != o
  {
    if deleted_old != 0 {
      var j: nat :| Gone(o, n, j);
      if j < |n| { assert MergedAt(o, n, c, j); }
    }
  }

  /** An old map that is about to be matched is not in the list yet. */
  lemma NotYetIn(maps: seq<MapInfo?>, o: seq<MapInfo>, n: seq<MapInfo>, c: seq<MapInfo>, search: nat, k: nat)
    requires Merging(maps, o, n, c, search, k) && search < |o| && k < |n| && Same(o[search].region, n[k].region)
    requires forall x :: x in n ==> x !in o
    ensures o[search] !in c && Distinct(c)
  {
    forall i | 0 <= i < |c|
      ensures c[i].region.start == n[i].region.start && c[i] != o[search]
    {
      if i < k {
        assert MergedAt(o, n, c, i) && Precedes(n, i, k);
      } else {
        assert c[k..][i - k] == n[k..][i - k];
        assert c[i] in n;
      }
    }
    forall i, j | 0 <= i < j < |c|
      ensures c[i] != c[j]
    {
      assert Precedes(n, i, j);
    }
  }

  /** All that is known while new map `k` is compared with the old maps from `search` on. */
  ghost predicate Settling(maps: seq<MapInfo?>, o: seq<MapInfo>, n: seq<MapInfo>, c: seq<MapInfo>, search: nat, k: nat,
                           deleted_old: nat, deleted_new: nat) {
    && Merging(maps, o, n, c, search, k) && Accounted(maps, o, c, search, deleted_old + deleted_new)
    && Counted(o, n, c, search, k, deleted_old, deleted_new) && (forall x :: x in n ==> x !in o)
  }

  lemma SettlingBegins(o: seq<MapInfo>, n: seq<MapInfo>)
    requires InOrder(o) && InOrder(n) && forall x :: x in n ==> x !in o
    ensures Settling(o + n, o, n, n, 0, 0, 0, 0)
  {
  }

  lemma SettleByDelete(maps: seq<MapInfo?>, o: seq<MapInfo>, n: seq<MapInfo>, c: seq<MapInfo>, search: nat, k: nat,
                       deleted_old: nat, deleted_new: nat)
    requires Settling(maps, o, n, c, search, k, deleted_old, deleted_new)
    requires search < |o| && k < |n| && Passed(o[search].region, n[k].region)
    ensures search < |maps| && Settling(maps[search := null], o, n, c, search + 1, k, deleted_old + 1, deleted_new)
  {
    DeleteStep(maps, o, n, c, search, k);
    DeleteAccounted(maps, o, c, search, deleted_old + deleted_new);
  }

  lemma SettleByMatch(maps: seq<MapInfo?>, o: seq<MapInfo>, n: seq<MapInfo>, c: seq<MapInfo>, search: nat, k: nat,
                      deleted_old: nat, deleted_new: nat)
    requires Settling(maps, o, n, c, search, k, deleted_old, deleted_new)
    requires search < |o| && k < |n| && Same(o[search].region, n[k].region)
    ensures |maps| == |o| + |n| && |c| == |n| && c[k] == n[k] && o[search] !in c && Distinct(c)
    ensures Settling(maps[|o| + k := null], o, n, c[k := o[search]], search + 1, k + 1, deleted_old, deleted_new + 1)
  {
    hide Merging, Accounted, Distinct;
    MatchStep(maps, o, n, c, search, k);
    MatchAccounted(maps, o, c, search, deleted_old + deleted_new, |o| + k, k);
    NotYetIn(maps, o, n, c, search, k);
  }

  lemma SettleBySkip(maps: seq<MapInfo?>, o: seq<MapInfo>, n: seq<MapInfo>, c: seq<MapInfo>, search: nat, k: nat,
                     deleted_old: nat, deleted_new: nat)
    requires Settling(maps, o, n, c, search, k, deleted_old, deleted_new)
    requires k < |n| && (search < |o| ==> n[k].region.start < o[search].region.start)
    ensures Settling(maps, o, n, c, search, k + 1, deleted_old, deleted_new)
  {
    SkipStep(maps, o, n, c, search, k);
  }

  /** Once the new maps or the old ones are used up, the old ones that are left can go. */
  ghost predicate Clearing(maps: seq<MapInfo?>, o: seq<MapInfo>, n: seq<MapInfo>, c: seq<MapInfo>, search: nat, k: nat,
                           deleted_old: nat, deleted_new: nat) {
    && Accounted(maps, o, c, search, deleted_old + deleted_new)
    && Counted(o, n, c, search, k, deleted_old, deleted_new)
    && |o| <= |maps| && maps[search..|o|] == o[search..]
    && forall j {:trigger Gone(o, n, j)} :: search <= j < |o| ==> Gone(o, n, j)
  }

  lemma ClearingStep(maps: seq<MapInfo?>, o: seq<MapInfo>, n: seq<MapInfo>, c: seq<MapInfo>, search: nat, k: nat,
                     deleted_old: nat, deleted_new: nat)
    requires Clearing(maps, o, n, c, search, k, deleted_old, deleted_new) && search < |o|
    ensures search < |maps| && Clearing(maps[search := null], o, n, c, search + 1, k, deleted_old + 1, deleted_new)
  {
    assert maps[search..|o|][0] == o[search..][0];
    assert maps[search := null][search + 1..|o|] == maps[search..|o|][1..] && o[search + 1..] == o[search..][1..];
    DeleteAccounted(maps, o, c, search, deleted_old + deleted_new);
    assert Gone(o, n, search);
  }

  lemma ClearingBegins(maps: seq<MapInfo?>, o: seq<MapInfo>, n: seq<MapInfo>, c: seq<MapInfo>, search: nat, k: nat,
                       deleted_old: nat, deleted_new: nat)
    requires Settling(maps, o, n, c, search, k, deleted_old, deleted_new) && (search == |o| || k == |n|)
    ensures Clearing(maps, o, n, c, search, k, deleted_old, deleted_new) && search <= |o|
    ensures Merged(o, n, |n|, c) && InOrder(c)
  {
    MergeEnds(maps, o, n, c, search, k);
  }

  /** What is left once all old maps are settled. */
  lemma ClearingEnds(maps: seq<MapInfo?>, o: seq<MapInfo>, n: seq<MapInfo>, c: seq<MapInfo>, k: nat,
                     deleted_old: nat, deleted_new: nat)
    requires Clearing(maps, o, n, c, |o|, k, deleted_old, deleted_new) && Merged(o, n, |n|, c) && InOrder(c)
    ensures |maps| == |Sort(maps, NullLast)| == |c| + deleted_old + deleted_new
    ensures Sort(maps, NullLast)[..|c|] == c
    ensures deleted_old != 0 || |c| != |o| <==> c != o
  {
    assert o[|o|..] == [];
    SortedResult(maps, c, deleted_old + deleted_new);
    ChangedMeans(o, n, c, k, deleted_old, deleted_new);
  }

  /** The merged list says of each region what was parsed of it. */
  lemma MergedMeans(o: seq<MapInfo>, n: seq<MapInfo>, c: seq<MapInfo>, parsed: seq<Region>)
    requires Merged(o, n, |n|, c) && Regions(n) == parsed
    ensures |c| == |parsed| && forall i :: 0 <= i < |c| ==>
              Same(c[i].region, parsed[i]) && (c[i] in o || (c[i] in n && c[i].region == parsed[i]))
    ensures forall i, j :: 0 <= i < |c| && 0 <= j < |o| && Same(o[j].region, parsed[i]) ==> c[i] == o[j]
  {
    forall i | 0 <= i < |c|
      ensures MergedAt(o, n, c, i) && n[i].region == parsed[i]
    {
      assert MergedAt(o, n, c, i) && Regions(n)[i] == parsed[i];
    }
  }

  lemma ParsedInOrder(n: seq<MapInfo>, parsed: seq<Region>)
    requires Regions(n) == parsed && Ascending(parsed)
    ensures InOrder(n)
  {
    assert forall i :: 0 <= i < |n| ==> n[i].region == Regions(n)[i];
  }

  class LocalMaps {
    var maps: seq<MapInfo>

    /** Clears the old maps before new map `k`; says whether the one at `search` is the same. */
    static method Compare(work0: seq<MapInfo?>, o: seq<MapInfo>, n: seq<MapInfo>, ghost c: seq<MapInfo>,
                          search0: nat, k: nat, deleted_old0: nat, ghost deleted_new: nat)
      returns (work: seq<MapInfo?>, search: nat, deleted_old: nat, found: bool)
      requires Settling(work0, o, n, c, search0, k, deleted_old0, deleted_new) && search0 <= |o| && k < |n|
      ensures Settling(work, o, n, c, search, k, deleted_old, deleted_new)
      ensures search <= |o| && (found ==> search < |o| && Same(o[search].region, n[k].region))
      ensures !found && search < |o| ==> n[k].region.start < o[search].region.start
    {
      hide Settling;
      work, search, deleted_old, found := work0, search0, deleted_old0, false;
      while search < |o|
        invariant search <= |o| && Settling(work, o, n, c, search, k, deleted_old, deleted_new)
      {
        if Same(o[search].region, n[k].region) {
          found := true;
          return;
        } else if o[search].region.start > n[k].region.start {
          return;
        }
        SettleByDelete(work, o, n, c, search, k, deleted_old, deleted_new);
        work := work[search := null];
        search, deleted_old := search + 1, deleted_old + 1;
      }
    }

    /** Goes through the new maps, and puts old objects in the place of those that are the same. */
    static method Merge(o: seq<MapInfo>, n: seq<MapInfo>)
      returns (work: seq<MapInfo?>, search: nat, deleted_old: nat, deleted_new: nat, ghost c: seq<MapInfo>,
               ghost k: nat)
      requires InOrder(o) && InOrder(n) && Chain(n) && forall x :: x in n ==> x !in o
      modifies o, n
      ensures Settling(work, o, n, c, search, k, deleted_old, deleted_new) && (search == |o| || k == |n|)
      ensures Chain(c)
    {
      hide Settling, Distinct, InOrder;
      c := n;
      SettlingBegins(o, n);
      work := o + n;
      search, deleted_old, deleted_new := 0, 0, 0;
      var new_idx := 0;
      while new_idx < |n| && search < |o|
        invariant 0 <= new_idx <= |n| && search <= |o| && |c| == |n|
        invariant forall i :: 0 <= i < |c| ==> c[i] in o || c[i] in n
        invariant Settling(work, o, n, c, search, new_idx, deleted_old, deleted_new)
        invariant Chain(c)
      {
        var found;
        work, search, deleted_old, found := Compare(work, o, n, c, search, new_idx, deleted_old, deleted_new);
        if found {
          SettleByMatch(work, o, n, c, search, new_idx, deleted_old, deleted_new);
          Relink(n[new_idx], o[search], c, new_idx);
          c := c[new_idx := o[search]];
          work := work[|o| + new_idx := null];
          search, deleted_new := search + 1, deleted_new + 1;
        } else {
          SettleBySkip(work, o, n, c, search, new_idx, deleted_old, deleted_new);
        }
        new_idx := new_idx + 1;
      }
      k := new_idx;
    }

    /** Clears the old maps that are left. */
    static method ClearRest(work0: seq<MapInfo?>, o: seq<MapInfo>, ghost n: seq<MapInfo>, ghost c: seq<MapInfo>,
                            search0: nat, ghost k: nat, deleted_old0: nat, ghost deleted_new: nat)
      returns (work: seq<MapInfo?>, deleted_old: nat)
      requires Clearing(work0, o, n, c, search0, k, deleted_old0, deleted_new) && search0 <= |o|
      ensures Clearing(work, o, n, c, |o|, k, deleted_old, deleted_new)
    {
      hide Clearing;
      work, deleted_old := work0, deleted_old0;
      for i := search0 to |o|
        invariant Clearing(work, o, n, c, i, k, deleted_old, deleted_new)
      {
        ClearingStep(work, o, n, c, i, k, deleted_old, deleted_new);
        work := work[i := null];
        deleted_old := deleted_old + 1;
      }
    }

    /**
     Takes over a newly parsed list.  Unchanged maps keep their objects, the
     links run along the new list, and the caller learns whether it changed.
     */
    method Reparse(parsed: seq<Region>, ok: bool) returns (success: bool, any_changed: bool)
      requires InOrder(maps) && Ascending(parsed)
      modifies this, maps
      ensures success == ok && (!ok ==> maps == old(maps) && unchanged(old(maps)))
      ensures ok ==> |maps| == |parsed|
      ensures ok ==> forall i :: 0 <= i < |parsed| ==>
                       && maps[i].region.start == parsed[i].start && maps[i].region.end == parsed[i].end
                       && maps[i].region.flags == parsed[i].flags && maps[i].region.name == parsed[i].name
      ensures ok ==> InOrder(maps) && Chain(maps)
      ensures ok ==> forall i :: 0 <= i < |maps| ==>
                       maps[i] in old(maps) || (fresh(maps[i]) && maps[i].region == parsed[i])
      ensures ok ==> forall i, j | 0 <= i < |maps| && 0 <= j < |old(maps)| ::
                       var a, b := old(maps)[j].region, parsed[i];
                       a.start == b.start && a.end == b.end && a.flags == b.flags && a.name == b.name ==>
                         maps[i] == old(maps)[j]
      ensures ok ==> (any_changed <==> maps != old(maps))
    {
      hide Settling, Clearing, Merged, InOrder, Ascending, Regions, Sort;
      if !ok { return false, false; }
      var o := maps;
      var n := Parse(parsed);
      ParsedInOrder(n, parsed);
      var work, search, deleted_old, deleted_new;
      ghost var c, k;
      work, search, deleted_old, deleted_new, c, k := Merge(o, n);
      ClearingBegins(work, o, n, c, search, k, deleted_old, deleted_new);
      work, deleted_old := ClearRest(work, o, n, c, search, k, deleted_old, deleted_new);
      ClearingEnds(work, o, n, c, k, deleted_old, deleted_new);
      MergedMeans(o, n, c, parsed);
      maps := Sort(work, NullLast)[..|work| - deleted_old - deleted_new];
      success, any_changed := true, deleted_old != 0 || |maps| != |o|;
    }

    /** The map that holds `pc`, if there is one. */
    method Find(pc: nat) returns (found: MapInfo?)
      requires InOrder(maps) && forall i, j :: 0 <= i < j < |maps| ==> maps[i].region.end <= maps[j].region.start
      ensures found != null ==> found in maps && found.region.start <= pc < found.region.end
      ensures found == null ==> forall i :: 0 <= i < |maps| ==> !(maps[i].region.start <= pc < maps[i].region.end)
    {
      var first, last := 0, |maps|;
      while first < last
        invariant 0 <= first <= last <= |maps|
        invariant forall i :: 0 <= i < first ==> maps[i].region.end <= pc
        invariant forall i :: last <= i < |maps| ==> pc < maps[i].region.start
      {
        var index := (first + last) / 2;
        var cur := maps[index];
        forall i | index < i < |maps|
          ensures cur.region.start < maps[i].region.start
        {
          assert Precedes(maps, index, i);
        }
        if cur.region.start <= pc < cur.region.end {
          return cur;
        } else if pc < cur.region.start {
          last := index;
        } else {
          first := index + 1;
        }
      }
      return null;
    }
  }
}
