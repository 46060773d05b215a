/**
 Open addressing with linear probing, and erasure that shifts elements back.

 The table is an array of slots.  The specification functions speak about the
 sequence of slots; the class works on the array in place.
 */
module HashSets {

  datatype Slot<+T> = Empty | Full(value: T)

  const MIN_BUCKETS := 1000

  function Index(hash: nat, buckets: nat): (i: nat)
    requires buckets > 0
    ensures i < buckets
  {
    hash % buckets
  }

  function Next(i: int, n: int): int {
    if i + 1 >= n then 0 else i + 1
  }

  /** `k` lies on the cyclic way from `a` up to but excluding `b`. */
  predicate Between(a: int, k: int, b: int) {
    if a <= b then a <= k < b else a <= k || k < b
  }

  /** `k` lies on the cyclic way from `a` up to and including `b`. */
  predicate UpTo(a: int, k: int, b: int) {
    if a <= b then a <= k <= b else a <= k || k <= b
  }

  ghost function Ideal<T>(s: seq<Slot<T>>, hash: T -> nat, i: nat): (d: nat)
    requires i < |s| && s[i].Full?
    ensures d < |s|
  {
    Index(hash(s[i].value), |s|)
  }

  /** There is no empty slot from the ideal slot of an element to its actual slot. */
  ghost predicate Probed<T>(s: seq<Slot<T>>, hash: T -> nat) {
    forall i, k :: 0 <= i < |s| && 0 <= k < |s| && s[i].Full? && Between(Ideal(s, hash, i), k, i) ==> s[k].Full?
  }

  /** The stored elements. */
  ghost function Contents<T>(s: seq<Slot<T>>): multiset<Slot<T>> {
    multiset(s)[Empty := 0]
  }

  /** How many elements are stored. */
  ghost function Count<T>(s: seq<Slot<T>>): int {
    |s| - multiset(s)[Empty]
  }

  lemma CountOfPrefix<T>(s: seq<Slot<T>>, i: nat)
    requires i <= |s|
    ensures Count(s[..i]) <= Count(s)
  {
    assert s == s[..i] + s[i..];
    EmptiesAtMost(s[i..]);
  }

  lemma EmptiesAtMost<T>(s: seq<Slot<T>>)
    ensures multiset(s)[Empty] <= |s|
  {
    if s != [] {
      assert s == [s[0]] + s[1..];
      EmptiesAtMost(s[1..]);
    }
  }

  lemma CountOfNext<T>(s: seq<Slot<T>>, i: nat)
    requires i < |s|
    ensures Contents(s[..i + 1]) == Contents(s[..i]) + if s[i].Full? then multiset{s[i]} else multiset{}
    ensures Count(s[..i + 1]) == Count(s[..i]) + if s[i].Full? then 1 else 0
  {
    assert s[..i + 1] == s[..i] + [s[i]];
  }

  lemma CountOfEmptied<T>(s: seq<Slot<T>>, i: nat)
    requires i < |s| && s[i].Full?
    ensures Contents(s[i := Empty]) == Contents(s) - multiset{s[i]}
    ensures Count(s[i := Empty]) == Count(s) - 1 && Count(s) >= 1
  {
    EmptiesAtMost(s[i := Empty]);
  }

  lemma AllEmpty<T>(s: seq<Slot<T>>)
    requires forall i :: 0 <= i < |s| ==> s[i] == Empty
    ensures Contents(s) == multiset{} && Count(s) == 0
  {
    if s != [] {
      assert s == [s[0]] + s[1..];
      AllEmpty(s[1..]);
    }
  }

  lemma EmptyTable<T>(s: seq<Slot<T>>, hash: T -> nat, before: seq<Slot<T>>)
    requires forall i :: 0 <= i < |s| ==> s[i] == Empty
    ensures Probed(s, hash) && Contents(s) == Contents(before[..0]) && Count(s) == Count(before[..0])
  {
    AllEmpty(s);
    AllEmpty(before[..0]);
  }

  /** An element that is stored lies between its ideal slot and the first empty slot from there. */
  lemma FoundBeforeEmpty<T>(s: seq<Slot<T>>, hash: T -> nat, x: T, e: nat)
    requires Probed(s, hash) && e < |s| && s[e].Empty?
    requires forall k :: 0 <= k < |s| && Between(Index(hash(x), |s|), k, e) ==> s[k] != Full(x)
    ensures Full(x) !in s
  {
    assert forall i :: 0 <= i < |s| && s[i] == Full(x) ==> Ideal(s, hash, i) == Index(hash(x), |s|);
  }

  /** Storing an element in the first empty slot from its ideal slot leaves no gap. */
  lemma PutKeepsProbed<T>(s: seq<Slot<T>>, hash: T -> nat, x: T, e: nat)
    requires Probed(s, hash) && e < |s| && s[e].Empty?
    requires forall k :: 0 <= k < |s| && Between(Index(hash(x), |s|), k, e) ==> s[k].Full?
    ensures Probed(s[e := Full(x)], hash)
    ensures Contents(s[e := Full(x)]) == Contents(s) + multiset{Full(x)}
  {
    var s' := s[e := Full(x)];
    forall i, k | 0 <= i < |s'| && 0 <= k < |s'| && s'[i].Full? && Between(Ideal(s', hash, i), k, i)
      ensures s'[k].Full?
    {
      if i != e { assert Ideal(s', hash, i) == Ideal(s, hash, i); }
    }
  }

  // ----- erasure

  /**
   The table with a hole at `e`, after the slots up to `p` have been examined:
   only elements beyond `p` may still have the hole on their way.
   */
  ghost predicate Shifting<T>(s: seq<Slot<T>>, hash: T -> nat, e: int, p: int) {
    && 0 <= e < |s| && 0 <= p < |s| && s[e].Empty?
    && (forall k :: 0 <= k < |s| && k != e && UpTo(e, k, p) ==> s[k].Full?)
    && (forall i, k :: 0 <= i < |s| && 0 <= k < |s| && s[i].Full? && Between(Ideal(s, hash, i), k, i) ==>
                         s[k].Full? || (k == e && !UpTo(e, i, p)))
  }

  /** A shift that has not yet come to the empty slot `z`. */
  ghost predicate Erasing<T>(s: seq<Slot<T>>, hash: T -> nat, e: int, p: int, z: int) {
    Shifting(s, hash, e, p) && 0 <= z < |s| && s[z].Empty? && !UpTo(e, z, p)
  }

  lemma ShiftBegins<T>(s: seq<Slot<T>>, hash: T -> nat, e: nat, z: nat)
    requires Probed(s, hash) && e < |s| && s[e].Full? && z < |s| && s[z].Empty?
    ensures Erasing(s[e := Empty], hash, e, e, z)
  {
    var s' := s[e := Empty];
    assert forall i :: 0 <= i < |s| && s'[i].Full? ==> Ideal(s', hash, i) == Ideal(s, hash, i);
  }

  /** The slot after `p` is not the hole, and it is empty only if it is `z` or before it. */
  lemma ShiftNext<T>(s: seq<Slot<T>>, hash: T -> nat, e: nat, p: nat, z: nat)
    requires Erasing(s, hash, e, p, z)
    ensures 0 <= Next(p, |s|) < |s| && Next(p, |s|) != e
    ensures s[Next(p, |s|)].Full? ==> Next(p, |s|) != z
  {
  }

  /** The test of the source: the ideal slot `d` of the element at `q` is not after the hole `e`. */
  lemma Unwrapped(e: nat, q: nat, d: nat, n: nat)
    requires e < n && q < n && d < n && q != e
    ensures var uq := if q < e then q + n else q;
            var ud := if d < e then d + n else d;
            (ud <= e || ud > uq) <==> (!UpTo(e, d, q) || d == e)
  {
  }

  /** An element whose ideal slot lies after the hole stays. */
  lemma ShiftSkips<T>(s: seq<Slot<T>>, hash: T -> nat, e: nat, p: nat, q: nat, z: nat)
    requires Erasing(s, hash, e, p, z) && q == Next(p, |s|) && q != e && s[q].Full?
    requires UpTo(e, Ideal(s, hash, q), q) && Ideal(s, hash, q) != e
    ensures Erasing(s, hash, e, q, z)
  {
    assert forall k :: 0 <= k < |s| && UpTo(e, k, q) ==> k == q || UpTo(e, k, p);
    assert !Between(Ideal(s, hash, q), e, q);
  }

  /** An element that was probed from the hole or before moves into it, and leaves the hole behind. */
  lemma ShiftMoves<T>(s: seq<Slot<T>>, hash: T -> nat, e: nat, p: nat, q: nat, z: nat)
    requires Erasing(s, hash, e, p, z) && q == Next(p, |s|) && q != e && s[q].Full? && q != z
    requires !UpTo(e, Ideal(s, hash, q), q) || Ideal(s, hash, q) == e
    ensures Erasing(s[e := s[q]][q := Empty], hash, q, q, z)
  {
    var s' := s[e := s[q]][q := Empty];
    forall i, k | 0 <= i < |s| && 0 <= k < |s| && s'[i].Full? && Between(Ideal(s', hash, i), k, i)
      ensures s'[k].Full? || (k == q && !UpTo(q, i, q))
    {
      MovedLeavesNoGap(s, hash, e, p, q, i, k);
    }
  }

  lemma MovedLeavesNoGap<T>(s: seq<Slot<T>>, hash: T -> nat, e: nat, p: nat, q: nat, i: nat, k: nat)
    requires Shifting(s, hash, e, p) && q < |s| && q != e && s[q].Full? && i < |s| && k < |s|
    requires !UpTo(e, Ideal(s, hash, q), q) || Ideal(s, hash, q) == e
    requires var s' := s[e := s[q]][q := Empty]; s'[i].Full? && Between(Ideal(s', hash, i), k, i)
    ensures var s' := s[e := s[q]][q := Empty]; s'[k].Full? || (k == q && !UpTo(q, i, q))
  {
    if i == e {
      WayOfMoved(Ideal(s, hash, q), e, q, k, |s|);
    }
  }

  /** The way to the hole is the beginning of the way to the element that moves there. */
  lemma WayOfMoved(d: nat, e: nat, q: nat, k: nat, n: nat)
    requires d < n && e < n && q < n && k < n && q != e && (!UpTo(e, d, q) || d == e) && Between(d, k, e)
    ensures Between(d, k, q) && k != e && k != q
  {
  }

  lemma MoveKeepsContents<T>(s: seq<Slot<T>>, e: nat, q: nat)
    requires e < |s| && q < |s| && e != q && s[e].Empty?
    ensures multiset(s[e := s[q]][q := Empty]) == multiset(s)
  {
  }

  /** At an empty slot the hole is on nobody's way. */
  lemma StillBetween(e: nat, p: nat, q: nat, d: nat, i: nat, n: nat)
    requires e < n && p < n && d < n && i < n && q == Next(p, n) && q != e && i != q && Between(d, e, i)
             && !UpTo(e, i, p)
    ensures Between(d, q, i)
  {
  }

  lemma ShiftEnds<T>(s: seq<Slot<T>>, hash: T -> nat, e: nat, p: nat)
    requires Shifting(s, hash, e, p) && Next(p, |s|) != e && s[Next(p, |s|)].Empty?
    ensures Probed(s, hash)
  {
    var q := Next(p, |s|);
    forall i, k | 0 <= i < |s| && 0 <= k < |s| && s[i].Full? && Between(Ideal(s, hash, i), k, i)
      ensures s[k].Full?
    {
      if k == e { StillBetween(e, p, q, Ideal(s, hash, i), i, |s|); }
    }
  }

  // ----- load factors

  /** The bucket count that `Resize` settles on. */
  function Buckets(wanted: int): nat {
    if wanted < MIN_BUCKETS then MIN_BUCKETS else wanted
  }

  function Quotient(size: nat, factor: real): int
    requires factor > 0.0
  {
    (size as real / factor).Floor
  }

  function Limit(buckets: nat, max: real): int {
    (buckets as real * max).Floor
  }

  /** Below a load factor of one, the table is never filled. */
  lemma LimitLeavesRoom(buckets: nat, max: real)
    requires max < 1.0 && buckets > 0
    ensures Limit(buckets, max) < buckets
  {
    assert buckets as real * max < buckets as real * 1.0;
  }

  lemma QuotientAtLeast(size: nat, factor: real, n: nat)
    requires factor > 0.0
    ensures Quotient(size, factor) >= n <==> size as real >= n as real * factor
  {
    var q := size as real / factor;
    assert q * factor == size as real;
    assert q >= n as real <==> q * factor >= n as real * factor;
  }

  /** After expanding a full table, one more element still leaves an empty slot. */
  predicate RoomToInsert(size: nat, min: real)
    requires min > 0.0
  {
    size + 1 < Buckets(Quotient(size, min))
  }

  /** Expanding makes room at every size exactly if the minimum load factor is at most 999/1001. */
  lemma ExpandMakesRoom(min: real)
    requires min > 0.0
    ensures (forall size: nat :: RoomToInsert(size, min)) <==> min * 1001.0 <= 999.0
  {
    if min * 1001.0 <= 999.0 {
      forall size: nat
        ensures RoomToInsert(size, min)
      {
        QuotientAtLeast(size, min, size + 2);
        if size >= 999 {
          assert size as real * min <= size as real * 999.0 / 1001.0;
          assert (size + 2) as real * min == size as real * min + 2.0 * min;
        }
      }
    } else {
      QuotientAtLeast(999, min, 1001);
      assert !RoomToInsert(999, min);
    }
  }

  /** Expanding a set of this size puts it below the limit for expanding. */
  predicate BelowLimit(size: nat, min: real, max: real)
    requires min > 0.0
  {
    size < Limit(Buckets(Quotient(size, min)), max)
  }

  /** A table of this many buckets does not come to its limit below the minimum load of the next larger one. */
  predicate Spaced(buckets: nat, min: real, max: real) {
    (buckets + 1) as real * min <= Limit(buckets, max) as real
  }

  /** From this many buckets on the load factors are far enough apart. */
  function Reach(min: real, max: real): int
    requires min < max
  {
    ((1.0 + min) / (max - min)).Floor + 1
  }

  lemma SpacedBeyond(buckets: nat, min: real, max: real)
    requires 0.0 < min < max && Reach(min, max) <= buckets
    ensures Spaced(buckets, min, max)
  {
    var q := (1.0 + min) / (max - min);
    assert q * (max - min) == 1.0 + min;
    assert q < buckets as real;
    assert buckets as real * (max - min) >= q * (max - min);
    assert buckets as real * (max - min) == buckets as real * max - buckets as real * min;
    assert (buckets + 1) as real * min == buckets as real * min + min;
  }

  /** A set that is not below the limit of its table shows a table size that is not spaced. */
  lemma NotSpaced(size: nat, min: real, max: real) returns (k: nat)
    requires 0.0 < min < max && !BelowLimit(size, min, max)
    ensures k >= MIN_BUCKETS && !Spaced(k, min, max)
  {
    k := Buckets(Quotient(size, min));
    QuotientAtLeast(size, min, k + 1);
    assert Limit(k, max) <= size;
  }

  /** A table size that is not spaced shows a set that is not below the limit. */
  lemma NotBelow(k: nat, min: real, max: real) returns (size: nat)
    requires 0.0 < min < max && max > 0.0 && k >= MIN_BUCKETS && !Spaced(k, min, max)
    ensures !BelowLimit(size, min, max)
  {
    assert k as real * max >= 0.0;
    size := Limit(k, max);
    QuotientAtLeast(size, min, k + 1);
    LimitGrows(Buckets(Quotient(size, min)), k, max);
  }

  /**
   Expanding puts a set of every size below the limit if and only if all table
   sizes up to the reach of the load factors are spaced.
   */
  lemma ExpandBelowLimit(min: real, max: real)
    requires 0.0 < min < max
    ensures (forall size: nat :: BelowLimit(size, min, max)) <==>
            (forall k: nat :: MIN_BUCKETS <= k < Reach(min, max) ==> Spaced(k, min, max))
  {
    if size: nat :| !BelowLimit(size, min, max) {
      var k := NotSpaced(size, min, max);
      if Reach(min, max) <= k { SpacedBeyond(k, min, max); }
    }
    if k: nat :| MIN_BUCKETS <= k < Reach(min, max) && !Spaced(k, min, max) {
      var size := NotBelow(k, min, max);
    }
  }

  /** It is enough that 1001 elements of the minimum load are one less than 1000 of the maximum load. */
  lemma MarginIsEnough(min: real, max: real)
    requires 0.0 < min < max && 1001.0 * min <= 1000.0 * max - 1.0
    ensures forall size: nat :: BelowLimit(size, min, max)
  {
    hide Spaced, BelowLimit, Reach;
    forall k: nat | MIN_BUCKETS <= k < Reach(min, max)
      ensures Spaced(k, min, max)
    {
      SpacedByMargin(k, min, max);
    }
    ExpandBelowLimit(min, max);
  }

  lemma SpacedByMargin(k: nat, min: real, max: real)
    requires 0.0 < min < max && 1001.0 * min <= 1000.0 * max - 1.0 && k >= MIN_BUCKETS
    ensures Spaced(k, min, max)
  {
    var more := (k - 1000) as real;
    Product(more, min, max);
    assert k as real == 1000.0 + more;
    assert k as real * max == 1000.0 * max + more * max;
    assert (k + 1) as real * min == 1001.0 * min + more * min;
  }

  lemma Product(a: real, x: real, y: real)
    requires a >= 0.0 && x <= y
    ensures a * x <= a * y
  {
  }

  /** With the default load factors, expanding always puts the element count below the limit. */
  lemma DefaultsExpandBelowLimit(size: nat)
    ensures BelowLimit(size, 0.4, 0.7)
  {
    MarginIsEnough(0.4, 0.7);
  }

  /** Load factors that are accepted but too close: 700 elements are at the limit after expanding. */
  lemma TooClose()
    ensures !BelowLimit(700, 0.699, 0.7) && !Spaced(1001, 0.699, 0.7)
  {
    QuotientAtLeast(700, 0.699, 1001);
    QuotientAtLeast(700, 0.699, 1002);
    assert Quotient(700, 0.699) == 1001;
  }

  /** Shrinking to the maximum load leaves an empty slot at every size exactly if that load is at most 1000/1001. */
  lemma ShrinkLeavesRoom(max: real)
    requires max > 0.0
    ensures (forall size: nat :: size < Buckets(Quotient(size, max))) <==> max * 1001.0 <= 1000.0
  {
    if max * 1001.0 <= 1000.0 {
      forall size: nat
        ensures size < Buckets(Quotient(size, max))
      {
        QuotientAtLeast(size, max, size + 1);
        if size >= 1000 {
          assert size as real * max <= size as real * 1000.0 / 1001.0;
          assert (size + 1) as real * max == size as real * max + max;
        }
      }
    } else {
      QuotientAtLeast(1000, max, 1001);
    }
  }

  lemma LimitGrows(n: nat, m: nat, max: real)
    requires max > 0.0
    ensures n <= m ==> Limit(n, max) <= Limit(m, max)
  {
    if n <= m { assert n as real * max <= m as real * max; }
  }

  lemma EnoughBuckets(size: nat, max: real)
    requires max > 0.0
    ensures Quotient(size, max) >= 0 && Limit(Quotient(size, max) + 1, max) >= size
  {
    var q := size as real / max;
    assert q * max == size as real;
    assert q < (q.Floor + 1) as real;
    assert q * max <= (q.Floor + 1) as real * max;
  }

  lemma OneMore<T>(s: seq<Slot<T>>, a: nat, b: nat)
    requires a < b <= |s| && s[a].Full? && forall k :: a < k < b ==> s[k].Empty?
    ensures Contents(s[..b]) == Contents(s[..a]) + multiset{s[a]}
  {
    CountOfNext(s, a);
    OnlyEmpty(s, a + 1, b);
  }

  /** The load of the table is above `max`. */
  predicate TooFull(size: nat, buckets: nat, max: real) {
    buckets > 0 && size as real / buckets as real > max
  }

  lemma TooFullMeans(size: nat, buckets: nat, max: real)
    requires TooFull(size, buckets, max)
    ensures size as real > buckets as real * max
  {
    var load := size as real / buckets as real;
    assert load * buckets as real == size as real;
    assert load * buckets as real > max * buckets as real;
  }

  /** A table that is fuller than the maximum grows when it is resized to the mean load. */
  lemma MeanLeavesRoom(size: nat, buckets: nat, min: real, max: real)
    requires 0.0 < min < max && TooFull(size, buckets, max)
    ensures buckets <= Quotient(size, (min + max) * 0.5)
  {
    var mean := (min + max) * 0.5;
    TooFullMeans(size, buckets, max);
    assert buckets as real * mean <= buckets as real * max;
    QuotientAtLeast(size, mean, buckets);
  }

  /** Empty slots hold nothing. */
  lemma OnlyEmpty<T>(s: seq<Slot<T>>, a: nat, b: nat)
    requires a <= b <= |s| && forall k :: a <= k < b ==> s[k].Empty?
    ensures Contents(s[..b]) == Contents(s[..a])
  {
    AllEmpty(s[a..b]);
    assert s[..b] == s[..a] + s[a..b];
  }

  class HashSet<T(==)> {
    const hash: T -> nat
    var data: array<Slot<T>>
    var num_elements: nat
    var elements_until_expand: int
    var min_load: real
    var max_load: real

    ghost predicate Valid()
      reads this, data
    {
      && Probed(data[..], hash)
      && num_elements == Count(data[..])
      && (data.Length > 0 ==> num_elements < data.Length)
      && elements_until_expand == Limit(data.Length, max_load)
      && min_load > 0.0 && max_load < 1.0
    }

    ghost function Elements(): multiset<Slot<T>>
      reads this, data
    {
      Contents(data[..])
    }

    constructor (hash: T -> nat, min_load: real, max_load: real)
      requires min_load > 0.0 && max_load < 1.0
      ensures Valid() && Elements() == multiset{} && fresh(data)
      ensures this.hash == hash && this.min_load == min_load && this.max_load == max_load
    {
      this.hash, this.min_load, this.max_load := hash, min_load, max_load;
      num_elements, elements_until_expand := 0, 0;
      data := new Slot<T>[0];
      new;
      assert data[..] == [];
    }

    /** The slot of `x`, or the first empty slot from its ideal slot. */
    method FindSlot(x: T) returns (index: nat, found: bool)
      requires Probed(data[..], hash) && Empty in data[..]
      ensures index < data.Length && (found <==> Full(x) in data[..])
      ensures found ==> data[index] == Full(x)
      ensures !found ==> data[index].Empty?
      ensures forall k :: 0 <= k < data.Length && Between(Index(hash(x), data.Length), k, index) ==> data[k].Full?
    {
      ghost var e :| 0 <= e < data.Length && data[e] == Empty;
      ghost var ideal := Index(hash(x), data.Length);
      index := Index(hash(x), data.Length);
      while true
        invariant index < data.Length && !Between(ideal, e, index)
        invariant forall k :: 0 <= k < data.Length && Between(ideal, k, index) ==> data[k].Full? && data[k] != Full(x)
        decreases if index <= e then e - index else e - index + data.Length
      {
        if data[index].Empty? {
          FoundBeforeEmpty(data[..], hash, x, index);
          return index, false;
        }
        if data[index] == Full(x) {
          assert data[..][index] == Full(x);
          return index, true;
        }
        index := Next(index, data.Length);
      }
    }

    /** The slot of `x`, or the number of buckets if it is not stored. */
    method Find(x: T) returns (index: nat)
      requires Valid()
      ensures index <= data.Length
      ensures index < data.Length <==> Full(x) in Elements()
      ensures index < data.Length ==> data[index] == Full(x)
    {
      if data.Length == 0 { return 0; }
      assert Empty in multiset(data[..]);
      var i, found := FindSlot(x);
      index := if found then i else data.Length;
    }

    /** The first empty slot from `ideal`. */
    method FirstAvailableSlot(ideal: nat) returns (index: nat)
      requires ideal < data.Length && Empty in data[..]
      ensures index < data.Length && data[index].Empty?
      ensures forall k :: 0 <= k < data.Length && Between(ideal, k, index) ==> data[k].Full?
    {
      ghost var e :| 0 <= e < data.Length && data[e] == Empty;
      index := ideal;
      while data[index].Full?
        invariant index < data.Length && !Between(ideal, e, index)
        invariant forall k :: 0 <= k < data.Length && Between(ideal, k, index) ==> data[k].Full?
        decreases if index <= e then e - index else e - index + data.Length
      {
        index := Next(index, data.Length);
      }
    }

    /** Stores `x` in the first empty slot from its ideal slot. */
    method Store(x: T)
      requires Probed(data[..], hash) && Count(data[..]) < data.Length
      modifies data
      ensures Probed(data[..], hash) && Count(data[..]) == old(Count(data[..])) + 1
      ensures Elements() == old(Elements()) + multiset{Full(x)}
    {
      assert Empty in multiset(data[..]);
      var slot := FirstAvailableSlot(Index(hash(x), data.Length));
      PutKeepsProbed(data[..], hash, x, slot);
      data[slot] := Full(x);
      assert data[..] == old(data[..])[slot := Full(x)];
    }

    /** Moves all elements to a table of another size. */
    method Resize(wanted: int)
      requires Valid() && num_elements < Buckets(wanted)
      modifies this
      ensures Valid() && fresh(data) && data.Length == Buckets(wanted)
      ensures Elements() == old(Elements()) && num_elements == old(num_elements)
      ensures min_load == old(min_load) && max_load == old(max_load)
    {
      hide Probed, Contents, Count;
      var old_data := data;
      ghost var s := data[..];
      data := new Slot<T>[Buckets(wanted)](_ => Empty);
      EmptyTable(data[..], hash, s);
      for i := 0 to old_data.Length
        invariant fresh(data) && data.Length == Buckets(wanted)
                  && unchanged(this`num_elements, this`min_load, this`max_load)
        invariant old_data[..] == s
        invariant Probed(data[..], hash) && Elements() == Contents(s[..i]) && Count(data[..]) == Count(s[..i])
      {
        CountOfNext(s, i);
        CountOfPrefix(s, i);
        if old_data[i].Full? {
          Store(old_data[i].value);
        }
      }
      assert s[..|s|] == s;
      elements_until_expand := Limit(data.Length, max_load);
    }

    /** Makes the table larger if the element count has reached the limit. */
    method ExpandIfFull()
      requires Valid()
      requires num_elements >= elements_until_expand ==> RoomToInsert(num_elements, min_load)
      modifies this
      ensures Valid() && num_elements + 1 < data.Length && (data == old(data) || fresh(data))
      ensures Elements() == old(Elements()) && num_elements == old(num_elements)
      ensures min_load == old(min_load) && max_load == old(max_load)
    {
      if num_elements >= elements_until_expand {
        Resize(Quotient(num_elements, min_load));
      } else {
        if data.Length > 0 { LimitLeavesRoom(data.Length, max_load); }
      }
    }

    /** Adds `x` unless it is stored already. */
    method Insert(x: T) returns (index: nat, inserted: bool)
      requires Valid()
      requires num_elements >= elements_until_expand ==> RoomToInsert(num_elements, min_load)
      modifies this, data
      ensures Valid() && (data == old(data) || fresh(data))
      ensures inserted <==> Full(x) !in old(Elements())
      ensures Elements() == if inserted then old(Elements()) + multiset{Full(x)} else old(Elements())
      ensures index < data.Length && data[index] == Full(x)
      ensures min_load == old(min_load) && max_load == old(max_load)
    {
      ExpandIfFull();
      assert Empty in multiset(data[..]);
      var slot, found := FindSlot(x);
      index, inserted := slot, !found;
      if !found {
        PutKeepsProbed(data[..], hash, x, slot);
        ghost var s := data[..];
        data[slot] := Full(x);
        assert data[..] == s[slot := Full(x)];
        num_elements := num_elements + 1;
      }
    }

    /** Adds `x` without looking for it. */
    method Put(x: T)
      requires Valid()
      requires num_elements >= elements_until_expand ==> RoomToInsert(num_elements, min_load)
      modifies this, data
      ensures Valid() && (data == old(data) || fresh(data))
      ensures Elements() == old(Elements()) + multiset{Full(x)}
      ensures min_load == old(min_load) && max_load == old(max_load)
    {
      ExpandIfFull();
      Store(x);
      num_elements := num_elements + 1;
    }

    /** The next slot after `index` that is not empty, or the number of buckets. */
    method NextNonEmptySlot(index: nat) returns (next: nat)
      requires index < data.Length
      ensures index < next <= data.Length && (next < data.Length ==> data[next].Full?)
      ensures forall k :: index < k < next ==> data[k].Empty?
    {
      next := index + 1;
      while next < data.Length && data[next].Empty?
        invariant index < next <= data.Length
        invariant forall k :: index < k < next ==> data[k].Empty?
      {
        next := next + 1;
      }
    }

    /** The table with the slot `e` counted as empty. */
    ghost function Holed(e: nat): seq<Slot<T>>
      requires e < data.Length
      reads this, data
    {
      data[..][e := Empty]
    }

    /** Looks at one slot, and moves its element into the hole if it was probed from there or before. */
    method ExamineNext(empty_index: nat, next_index: nat, ghost p: nat, ghost z: nat) returns (e: nat)
      requires p < data.Length && empty_index < data.Length && Erasing(Holed(empty_index), hash, empty_index, p, z)
      requires next_index == Next(p, data.Length) && next_index != empty_index && data[next_index].Full?
               && next_index != z
      modifies data
      ensures e < data.Length && Erasing(Holed(e), hash, e, next_index, z)
      ensures multiset(Holed(e)) == multiset(old(Holed(empty_index)))
      ensures e == empty_index || (e == next_index && data[empty_index].Full?)
      ensures forall k :: 0 <= k < data.Length && k != empty_index ==> data[k] == old(data[k])
    {
      ghost var s := Holed(empty_index);
      var ideal := Index(hash(data[next_index].value), data.Length);
      var unwrapped_next := if next_index < empty_index then next_index + data.Length else next_index;
      var unwrapped_ideal := if ideal < empty_index then ideal + data.Length else ideal;
      Unwrapped(empty_index, next_index, ideal, data.Length);
      e := empty_index;
      if unwrapped_ideal <= empty_index || unwrapped_ideal > unwrapped_next {
        ShiftMoves(s, hash, empty_index, p, next_index, z);
        MoveKeepsContents(s, empty_index, next_index);
        data[empty_index] := data[next_index];
        e := next_index;
        assert Holed(e) == s[empty_index := s[next_index]][next_index := Empty];
      } else {
        ShiftSkips(s, hash, empty_index, p, next_index, z);
      }
    }

    /** Empties slot `it` and shifts back the elements that were probed past it. */
    method ShiftBack(it: nat) returns (filled: bool)
      requires Probed(data[..], hash) && Empty in data[..] && it < data.Length && data[it].Full?
      modifies data
      ensures Probed(data[..], hash) && (filled <==> data[it].Full?)
      ensures multiset(data[..]) == multiset(old(data[..])[it := Empty])
    {
      ghost var z :| 0 <= z < data.Length && data[z] == Empty;
      var empty_index, next_index := it, it;
      filled := false;
      ShiftBegins(data[..], hash, it, z);
      while true
        invariant 0 <= empty_index < data.Length && 0 <= next_index < data.Length
        invariant Erasing(Holed(empty_index), hash, empty_index, next_index, z)
        invariant multiset(Holed(empty_index)) == multiset(old(data[..])[it := Empty])
        invariant if filled then empty_index != it && data[it].Full? else empty_index == it
        decreases if next_index <= z then z - next_index else z - next_index + data.Length
      {
        ghost var p := next_index;
        ShiftNext(Holed(empty_index), hash, empty_index, p, z);
        next_index := Next(next_index, data.Length);
        assert Holed(empty_index)[next_index] == data[next_index];
        if data[next_index].Empty? {
          ghost var s := Holed(empty_index);
          ShiftEnds(s, hash, empty_index, p);
          data[empty_index] := Empty;
          assert data[..] == s;
          return;
        }
        var e := ExamineNext(empty_index, next_index, p, z);
        filled := filled || e != empty_index;
        empty_index := e;
      }
    }

    /** Removes the element at `it`; the result is the next slot of an iteration. */
    method Erase(it: nat) returns (next: nat)
      requires Valid() && it < data.Length && data[it].Full?
      modifies this, data
      ensures Valid() && data == old(data)
      ensures Elements() == old(Elements()) - multiset{old(data[it])}
      ensures it <= next <= data.Length && (next < data.Length ==> data[next].Full?)
      ensures forall k :: it <= k < next ==> data[k].Empty?
      ensures min_load == old(min_load) && max_load == old(max_load)
    {
      assert Empty in multiset(data[..]);
      CountOfEmptied(data[..], it);
      var filled := ShiftBack(it);
      num_elements := num_elements - 1;
      next := it;
      if !filled {
        next := NextNonEmptySlot(it);
      }
    }

    /** A bucket count whose limit is above `count + 1`. */
    static method BucketsFor(count: nat, max: real) returns (num_buckets: nat)
      requires max > 0.0
      ensures Limit(num_buckets, max) > count + 1
    {
      EnoughBuckets(count, max);
      num_buckets := Quotient(count, max);
      ghost var enough := Quotient(count + 2, max) + 1;
      EnoughBuckets(count + 2, max);
      while Limit(num_buckets, max) <= count + 1
        decreases enough - num_buckets
      {
        LimitGrows(enough, num_buckets, max);
        num_buckets := num_buckets + 1;
      }
    }

    /** Makes room for `count` elements, so that none of their insertions expands the table. */
    method Reserve(count: nat)
      requires Valid() && max_load > 0.0
      modifies this
      ensures Valid() && (data == old(data) || fresh(data)) && old(data.Length) <= data.Length
      ensures Elements() == old(Elements()) && num_elements == old(num_elements)
      ensures count + 1 < elements_until_expand
      ensures min_load == old(min_load) && max_load == old(max_load)
    {
      var num_buckets := BucketsFor(count, max_load);
      if num_buckets > data.Length {
        LimitGrows(num_buckets, Buckets(num_buckets), max_load);
        Resize(num_buckets);
      } else {
        LimitGrows(num_buckets, data.Length, max_load);
      }
    }

    /** Resizes to the maximum load; the caller sees to it that a slot stays empty. */
    method ShrinkToMaximumLoad()
      requires Valid() && max_load > 0.0 && num_elements < Buckets(Quotient(num_elements, max_load))
      modifies this
      ensures Valid() && fresh(data) && data.Length == Buckets(old(Quotient(num_elements, max_load)))
      ensures Elements() == old(Elements()) && num_elements == old(num_elements)
      ensures min_load == old(min_load) && max_load == old(max_load)
    {
      Resize(Quotient(num_elements, max_load));
    }

    /** Changes the load factors, and resizes to their mean if the table is too full for them. */
    method SetLoadFactor(min: real, max: real)
      requires Valid() && 0.0 < min < max < 1.0
      modifies this
      ensures Valid() && (data == old(data) || fresh(data))
      ensures Elements() == old(Elements()) && num_elements == old(num_elements)
      ensures min_load == min && max_load == max
      ensures data == old(data) <==> !TooFull(old(num_elements), old(data.Length), max)
      ensures old(data.Length) <= data.Length
    {
      min_load, max_load := min, max;
      elements_until_expand := Limit(data.Length, max);
      if TooFull(num_elements, data.Length, max) {
        MeanLeavesRoom(num_elements, data.Length, min, max);
        Resize(Quotient(num_elements, (min + max) * 0.5));
      }
    }

    /** Visits the slots as an iteration from begin to end does. */
    method Iterate() returns (visited: seq<Slot<T>>)
      ensures multiset(visited) == Elements()
    {
      visited := [];
      var index := 0;
      ghost var s := data[..];
      if data.Length != 0 && data[0].Empty? {
        index := NextNonEmptySlot(0);
        OnlyEmpty(s, 0, index);
      }
      while index < data.Length
        invariant 0 <= index <= data.Length && (index < data.Length ==> data[index].Full?)
        invariant multiset(visited) == Contents(s[..index])
      {
        var next := NextNonEmptySlot(index);
        OneMore(s, index, next);
        visited := visited + [data[index]];
        index := next;
      }
      assert s[..|s|] == s;
    }
  }
}
