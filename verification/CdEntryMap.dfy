/**
 The hash table over the names of a central directory.  A slot holds where the
 name is in the directory and how long it is, packed into as few bits as will do.
 */
module CdEntryMap {
  import opened Bits
  import opened HashSets
  import opened OrderedKeys
  import opened WordSizes

  type Name = seq<Byte>

  datatype Packed = Packed(name_offset: nat, name_length: nat)

  const OFFSET20_MAX: nat := 0xf_ffff
  const LENGTH12_MAX: nat := 0xfff

  /** A slot as it is stored, in 20 and 12 bits or in 32 and 16. */
  function Pack(small: bool, offset: nat, length: nat): Packed {
    if small then Packed(offset % (OFFSET20_MAX + 1), length % (LENGTH12_MAX + 1))
    else Packed(offset % (UINT32_MAX + 1), length % (UINT16_MAX + 1))
  }

  predicate InDirectory(p: Packed, cd: seq<Byte>) {
    p.name_offset + p.name_length <= |cd|
  }

  function NameAt(p: Packed, cd: seq<Byte>): Name
    requires InDirectory(p, cd)
  {
    cd[p.name_offset..p.name_offset + p.name_length]
  }

  function SlotOf(p: Packed, cd: seq<Byte>): Slot<Name> {
    if p.name_offset == 0 || !InDirectory(p, cd) then Empty else Full(NameAt(p, cd))
  }

  ghost function Slots(table: seq<Packed>, cd: seq<Byte>): (s: seq<Slot<Name>>)
    ensures |s| == |table|
  {
    seq(|table|, i requires 0 <= i < |table| => SlotOf(table[i], cd))
  }

  /** Nothing is lost in packing a name of the directory. */
  lemma PackLosesNothing(small: bool, cd: seq<Byte>, offset: nat, length: nat)
    requires 0 < offset && offset + length <= |cd| && Fits(small, |cd|, length)
    ensures Pack(small, offset, length) == Packed(offset, length)
    ensures SlotOf(Pack(small, offset, length), cd) == Full(cd[offset..offset + length])
  {
  }

  /** The directory and the name are small enough for the packing that was chosen. */
  predicate Fits(small: bool, cd_length: nat, name_length: nat) {
    if small then cd_length <= OFFSET20_MAX && name_length <= LENGTH12_MAX
    else cd_length <= UINT32_MAX && name_length <= UINT16_MAX
  }

  /** Slot `i` holds an entry of the map. */
  ghost predicate HoldsEntry(table: seq<Packed>, cd: seq<Byte>, entries: map<Name, nat>, i: nat)
    requires i < |table|
  {
    && InDirectory(table[i], cd) && NameAt(table[i], cd) in entries
    && entries[NameAt(table[i], cd)] == table[i].name_offset
  }

  ghost predicate Distinct(s: seq<Slot<Name>>) {
    forall i, j :: 0 <= i < j < |s| && s[i].Full? ==> s[i] != s[j]
  }

  /** The names in the table are those of the map, each once, and with its offset. */
  ghost predicate Represents(table: seq<Packed>, cd: seq<Byte>, entries: map<Name, nat>) {
    && (forall i :: 0 <= i < |table| && table[i].name_offset != 0 ==> HoldsEntry(table, cd, entries, i))
    && Distinct(Slots(table, cd))
    && (forall name :: name in entries ==> Full(name) in Slots(table, cd))
  }

  method RoundUpPower2(val: nat) returns (r: nat, ghost n: nat)
    requires 1 <= val <= 0x8000_0000
    ensures r == Pow2(n) && val <= r < 2 * val
  {
    hide Bitwise, Pow2;
    var v: int := val - 1;
    ghost var x: nat := v;
    n := BitsOf(x);
    FewBits(x, n);
    SmearAll(x, n);
    v := Bitwise(Or, v, v / 2);
    v := Bitwise(Or, v, v / 4);
    v := Bitwise(Or, v, v / 16);
    v := Bitwise(Or, v, v / 256);
    v := Bitwise(Or, v, v / 0x1_0000);
    r := v + 1;
  }

  /** How many bits a number has. */
  ghost function BitsOf(x: nat): (n: nat)
    ensures if x == 0 then n == 0 else n > 0 && Pow2(n - 1) <= x < Pow2(n)
  {
    if x == 0 then 0 else 1 + BitsOf(x / 2)
  }

  function Smear(x: int, divisor: nat): int
    requires divisor > 0
  {
    Bitwise(Or, x, x / divisor)
  }

  lemma SmearStep(x: nat, n: nat, s: nat, divisor: nat)
    requires Smeared(x, n, s) && s > 0 && divisor == Pow2(s)
    ensures Smear(x, divisor) >= 0 && Smeared(Smear(x, divisor), n, 2 * s)
  {
    hide Bitwise, Pow2;
    SmearDoubles(x, n, s);
    BitwiseOfNats(Or, x, x / divisor);
  }

  lemma SmearBegins(x: nat, n: nat)
    requires n == BitsOf(x)
    ensures Smeared(x, n, 1)
  {
    assert Pow2(0) == 1 && Pow2(1) == 2;
    if n > 1 {
      hide Pow2;
      RemainderIs(x, Pow2(n - 1), 1, x - Pow2(n - 1));
    }
  }

  lemma FewBits(x: nat, n: nat)
    requires n == BitsOf(x) && x < 0x8000_0000
    ensures n <= 31 && x + 1 <= Pow2(n) < 2 * (x + 1)
  {
    hide BitsOf;
    if n > 0 {
      assert Pow2(n) == 2 * Pow2(n - 1);
    }
    hide Pow2;
    Pow2Known();
    if n > 31 { Pow2Grows(31, n - 1); }
  }

  /** All bits below the highest one have been filled in. */
  lemma SmearAll(x: nat, n: nat)
    requires n == BitsOf(x) && x < 0x8000_0000
    ensures Smear(Smear(Smear(Smear(Smear(x, 2), 4), 16), 256), 0x1_0000) == Pow2(n) - 1
  {
    hide Bitwise, BitsOf, Smear;
    assert Pow2(1) == 2 && Pow2(2) == 4 && Pow2(4) == 16;
    hide Pow2;
    Pow2Known();
    FewBits(x, n);
    SmearBegins(x, n);
    SmearStep(x, n, 1, 2);
    var x1 := Smear(x, 2);
    SmearStep(x1, n, 2, 4);
    var x2 := Smear(x1, 4);
    SmearStep(x2, n, 4, 16);
    var x3 := Smear(x2, 16);
    SmearStep(x3, n, 8, 256);
    var x4 := Smear(x3, 256);
    SmearStep(x4, n, 16, 0x1_0000);
  }

  // ----- the table

  lemma NoEntries(table: seq<Packed>, cd: seq<Byte>, hash: Name -> nat)
    requires forall i :: 0 <= i < |table| ==> table[i].name_offset == 0
    ensures Represents(table, cd, map[]) && Probed(Slots(table, cd), hash) && Count(Slots(table, cd)) == 0
  {
    AllEmpty(Slots(table, cd));
  }

  /** Storing a name that is not in the map, in an empty slot. */
  lemma Stored(table: seq<Packed>, cd: seq<Byte>, entries: map<Name, nat>, ent: nat, p: Packed)
    requires Represents(table, cd, entries) && ent < |table| && table[ent].name_offset == 0
    requires p.name_offset != 0 && InDirectory(p, cd) && NameAt(p, cd) !in entries
    ensures Slots(table[ent := p], cd) == Slots(table, cd)[ent := Full(NameAt(p, cd))]
    ensures Represents(table[ent := p], cd, entries[NameAt(p, cd) := p.name_offset])
    ensures Count(Slots(table[ent := p], cd)) == Count(Slots(table, cd)) + 1
  {
    var name := NameAt(p, cd);
    var table', entries' := table[ent := p], entries[name := p.name_offset];
    var s, s' := Slots(table, cd), Slots(table', cd);
    assert s' == s[ent := Full(name)];
    assert s'[ent := Empty] == s;
    CountOfEmptied(s', ent);
    forall i | 0 <= i < |table| && table'[i].name_offset != 0
      ensures HoldsEntry(table', cd, entries', i)
    {
      if i != ent { assert HoldsEntry(table, cd, entries, i); }
    }
    hide Slots, Count;
    NamesStay(s, entries, ent, name, p.name_offset);
    NewNameIsNew(table, cd, entries, ent, p);
  }

  lemma NamesStay(s: seq<Slot<Name>>, entries: map<Name, nat>, ent: nat, name: Name, offset: nat)
    requires (forall n :: n in entries ==> Full(n) in s) && ent < |s| && s[ent].Empty?
    ensures forall n :: n in entries[name := offset] ==> Full(n) in s[ent := Full(name)]
  {
    var s' := s[ent := Full(name)];
    forall n | n in entries[name := offset]
      ensures Full(n) in s'
    {
      if n == name {
        assert s'[ent] == Full(n);
      } else {
        var i :| 0 <= i < |s| && s[i] == Full(n);
        assert s'[i] == Full(n);
      }
    }
  }

  lemma NewNameIsNew(table: seq<Packed>, cd: seq<Byte>, entries: map<Name, nat>, ent: nat, p: Packed)
    requires Represents(table, cd, entries) && ent < |table| && p.name_offset != 0 && InDirectory(p, cd)
             && NameAt(p, cd) !in entries
    ensures Distinct(Slots(table[ent := p], cd))
  {
    var s, s' := Slots(table, cd), Slots(table[ent := p], cd);
    assert s' == s[ent := Full(NameAt(p, cd))];
    forall i | 0 <= i < |s|
      ensures s[i] != Full(NameAt(p, cd))
    {
      if s[i].Full? { assert HoldsEntry(table, cd, entries, i); }
    }
  }

  class CdEntryMapZip32 {
    const hash: Name -> nat
    const small: bool
    var hash_table: array<Packed>
    var current_position: nat
    ghost var entries: map<Name, nat>
    ghost var capacity: nat
    ghost var log: nat

    ghost predicate Valid(cd: seq<Byte>)
      reads this, hash_table
    {
      && hash_table.Length == Pow2(log) && |entries| <= capacity < hash_table.Length
      && Fits(small, |cd|, 0)
      && Represents(hash_table[..], cd, entries)
      && Probed(Slots(hash_table[..], cd), hash)
      && Count(Slots(hash_table[..], cd)) == |entries|
    }

    /** Room for the given number of entries, and at least one slot more. */
    constructor (num_entries: nat, hash: Name -> nat, small: bool, ghost cd: seq<Byte>)
      requires num_entries <= UINT16_MAX && Fits(small, |cd|, 0)
      ensures Valid(cd) && entries == map[] && capacity == num_entries && fresh(hash_table)
      ensures this.hash == hash && this.small == small && current_position == 0
    {
      var hash_table_size: nat;
      ghost var n: nat;
      hash_table_size, n := RoundUpPower2(1 + num_entries * 4 / 3);
      this.hash, this.small, current_position := hash, small, 0;
      hash_table := new Packed[hash_table_size](_ => Packed(0, 0));
      entries, capacity, log := map[], num_entries, n;
      new;
      NoEntries(hash_table[..], cd, hash);
    }

    /** The slot of the name, or the first empty one on its way. */
    method Probe(name: Name, cd: seq<Byte>) returns (ent: nat, found: bool)
      requires Valid(cd)
      ensures ent < hash_table.Length && (found <==> name in entries)
      ensures found ==> hash_table[ent].name_offset == entries[name]
      ensures !found ==> hash_table[ent].name_offset == 0
      ensures !found ==>
                forall k :: 0 <= k < hash_table.Length && Between(Index(hash(name), hash_table.Length), k, ent) ==>
                  Slots(hash_table[..], cd)[k].Full?
    {
      hide Bitwise, Pow2, Fits, Represents;
      ghost var table, s := hash_table[..], Slots(hash_table[..], cd);
      ghost var e := SomeEmpty(s);
      ghost var ideal := Index(hash(name), hash_table.Length);
      AndWithMask(hash(name), log);
      ent := Bitwise(And, hash(name), hash_table.Length - 1);
      while hash_table[ent].name_offset != 0
        invariant ent < hash_table.Length && !Between(ideal, e, ent)
        invariant forall k :: 0 <= k < |s| && Between(ideal, k, ent) ==> s[k].Full? && s[k] != Full(name)
        decreases if ent <= e then e - ent else e - ent + hash_table.Length
      {
        SlotIsFull(table, cd, entries, ent);
        if NameAt(hash_table[ent], cd) == name { return ent, true; }
        AndWithMask(ent + 1, log);
        Wraps(ent, hash_table.Length);
        ent := Bitwise(And, ent + 1, hash_table.Length - 1);
      }
      assert s[ent] == Empty;
      FoundBeforeEmpty(s, hash, name, ent);
      NotThere(table, cd, entries, name);
      return ent, false;
    }

    /** Where the name is in the directory. */
    method GetCdEntryOffset(name: Name, cd: seq<Byte>) returns (offset: Option<nat>)
      requires Valid(cd)
      ensures offset == if name in entries then Some(entries[name]) else None
    {
      var ent, found := Probe(name, cd);
      offset := if found then Some(hash_table[ent].name_offset) else None;
    }

    /** Adds the name at an offset of the directory, unless there is one like it. */
    method AddToMap(name: Name, offset: nat, cd: seq<Byte>) returns (added: bool)
      requires Valid(cd) && |entries| < capacity
      requires 0 < offset && offset + |name| <= |cd| && cd[offset..offset + |name|] == name && Fits(small, |cd|, |name|)
      modifies this`entries, hash_table
      ensures Valid(cd) && added == (name !in old(entries))
      ensures entries == if added then old(entries)[name := offset] else old(entries)
    {
      hide Represents, Count;
      var ent, found := Probe(name, cd);
      if found { return false; }
      var p := Pack(small, offset, |name|);
      PackLosesNothing(small, cd, offset, |name|);
      Stored(hash_table[..], cd, entries, ent, p);
      PutKeepsProbed(Slots(hash_table[..], cd), hash, name, ent);
      hash_table[ent] := p;
      assert hash_table[..] == old(hash_table[..])[ent := p];
      entries := entries[name := offset];
      return true;
    }

    method ResetIteration()
      modifies `current_position
      ensures current_position == 0
    {
      current_position := 0;
    }

    /** The next entry of the iteration; all slots before the new position have been looked at. */
    method Next(cd: seq<Byte>) returns (entry: Option<(Name, nat)>)
      requires Valid(cd) && current_position <= hash_table.Length
      modifies `current_position
      ensures NextIs(Slots(hash_table[..], cd), old(current_position), current_position, entries, entry)
    {
      hide Represents, Probed, Count, Pow2;
      ghost var s := Slots(hash_table[..], cd);
      while current_position < hash_table.Length
        invariant old(current_position) <= current_position <= hash_table.Length
        invariant forall k :: old(current_position) <= k < current_position ==> s[k].Empty?
      {
        var slot := hash_table[current_position];
        current_position := current_position + 1;
        if slot.name_offset != 0 {
          SlotIsFull(hash_table[..], cd, entries, current_position - 1);
          return Some((NameAt(slot, cd), slot.name_offset));
        }
        assert s[current_position - 1] == Empty;
      }
      return None;
    }

    /** An iteration from the start gives every entry exactly once. */
    method IterateAll(cd: seq<Byte>) returns (visited: seq<(Name, nat)>)
      requires Valid(cd)
      modifies `current_position
      ensures forall v :: v in visited ==> v.0 in entries && entries[v.0] == v.1
      ensures forall name :: name in entries ==> (name, entries[name]) in visited
      ensures forall i, j :: 0 <= i < j < |visited| ==> visited[i].0 != visited[j].0
    {
      hide Represents, Probed, Count, Pow2, Visited, Slots, Distinct;
      ghost var table, s := hash_table[..], Slots(hash_table[..], cd);
      visited := [];
      NoneVisited(s, entries);
      ResetIteration();
      ghost var seen := 0;
      var entry := Next(cd);
      while entry.Some?
        invariant current_position <= |s| && Visited(s, seen, entries, visited)
                  && NextIs(s, seen, current_position, entries, entry)
        decreases |s| - seen
      {
        assert Distinct(s) by { Represented(table, cd, entries); }
        VisitedStep(s, entries, seen, visited, current_position, entry.value);
        visited, seen := visited + [entry.value], current_position;
        entry := Next(cd);
      }
      VisitedAll(table, cd, entries, seen, visited);
    }
  }

  /** The iteration went on from one position to another, and found this entry. */
  ghost predicate NextIs(s: seq<Slot<Name>>, from: nat, to: nat, entries: map<Name, nat>, entry: Option<(Name, nat)>) {
    if entry.Some? then
      && from < to <= |s| && s[to - 1] == Full(entry.value.0) && entry.value.0 in entries
      && entries[entry.value.0] == entry.value.1
      && forall k :: from <= k < to - 1 ==> s[k].Empty?
    else
      from <= to == |s| && forall k :: from <= k < |s| ==> s[k].Empty?
  }

  /** The entries of the first slots have been visited, each once. */
  ghost predicate Visited(s: seq<Slot<Name>>, seen: nat, entries: map<Name, nat>, visited: seq<(Name, nat)>) {
    && seen <= |s|
    && (forall k :: 0 <= k < seen && s[k].Full? ==>
          s[k].value in entries && (s[k].value, entries[s[k].value]) in visited)
    && (forall v :: v in visited ==> v.0 in entries && entries[v.0] == v.1 && Full(v.0) in s[..seen])
    && (forall i, j :: 0 <= i < j < |visited| ==> visited[i].0 != visited[j].0)
  }

  lemma Represented(table: seq<Packed>, cd: seq<Byte>, entries: map<Name, nat>)
    requires Represents(table, cd, entries)
    ensures Distinct(Slots(table, cd))
  {
  }

  lemma NoneVisited(s: seq<Slot<Name>>, entries: map<Name, nat>)
    ensures Visited(s, 0, entries, [])
  {
  }

  lemma VisitedStep(s: seq<Slot<Name>>, entries: map<Name, nat>, seen: nat, visited: seq<(Name, nat)>, to: nat,
                    v: (Name, nat))
    requires Distinct(s) && Visited(s, seen, entries, visited) && NextIs(s, seen, to, entries, Some(v))
    ensures Visited(s, to, entries, visited + [v])
  {
    assert s[..to][to - 1] == Full(v.0);
    forall w | w in visited
      ensures Full(w.0) in s[..to] && w.0 != v.0
    {
      var i :| 0 <= i < seen && s[..seen][i] == Full(w.0);
      assert s[i] == Full(w.0) && s[..to][i] == Full(w.0);
    }
    forall k | 0 <= k < to && s[k].Full?
      ensures s[k].value in entries && (s[k].value, entries[s[k].value]) in visited + [v]
    {
      assert k < seen || k == to - 1;
    }
  }

  lemma VisitedAll(table: seq<Packed>, cd: seq<Byte>, entries: map<Name, nat>, seen: nat, visited: seq<(Name, nat)>)
    requires Represents(table, cd, entries) && Visited(Slots(table, cd), seen, entries, visited)
    requires NextIs(Slots(table, cd), seen, |table|, entries, None)
    ensures forall v :: v in visited ==> v.0 in entries && entries[v.0] == v.1
    ensures forall name :: name in entries ==> (name, entries[name]) in visited
    ensures forall i, j :: 0 <= i < j < |visited| ==> visited[i].0 != visited[j].0
  {
    forall name | name in entries
      ensures (name, entries[name]) in visited
    {
      var k :| 0 <= k < |table| && Slots(table, cd)[k] == Full(name);
    }
  }

  lemma SomeEmpty(s: seq<Slot<Name>>) returns (e: nat)
    requires Count(s) < |s|
    ensures e < |s| && s[e] == Empty
  {
    assert Empty in multiset(s);
    e :| 0 <= e < |s| && s[e] == Empty;
  }

  lemma SlotIsFull(table: seq<Packed>, cd: seq<Byte>, entries: map<Name, nat>, i: nat)
    requires Represents(table, cd, entries) && i < |table| && table[i].name_offset != 0
    ensures InDirectory(table[i], cd) && Slots(table, cd)[i] == Full(NameAt(table[i], cd))
    ensures NameAt(table[i], cd) in entries && entries[NameAt(table[i], cd)] == table[i].name_offset
  {
    assert HoldsEntry(table, cd, entries, i);
  }

  lemma NotThere(table: seq<Packed>, cd: seq<Byte>, entries: map<Name, nat>, name: Name)
    requires Represents(table, cd, entries) && Full(name) !in Slots(table, cd)
    ensures name !in entries
  {
  }

  lemma Wraps(i: nat, n: nat)
    requires i < n
    ensures (i + 1) % n == Next(i, n)
  {
  }
}
