/**
 The page cache in front of a memory.  A read of the memory gives the bytes up to
 the first one that cannot be read.
 */
module PageCache {
  import opened Bits

  const PAGE: nat := 4096

  /** The bytes that can be read. */
  type Bytes = map<nat, Byte>

  /** What reading the memory itself gives: as many of the bytes as can be read one after the other. */
  function ReadPrefix(m: Bytes, addr: nat, size: nat): (data: seq<Byte>)
    ensures |data| <= size
    decreases size
  {
    if size == 0 || addr !in m then [] else [m[addr]] + ReadPrefix(m, addr + 1, size - 1)
  }

  predicate ByteIs(m: Bytes, addr: nat, b: Byte) {
    addr in m && m[addr] == b
  }

  /** The bytes are in the memory at this address. */
  ghost predicate Holds(m: Bytes, addr: nat, data: seq<Byte>) {
    forall i :: 0 <= i < |data| ==> ByteIs(m, addr + i, data[i])
  }

  /** What is read is in the memory, and the byte after it cannot be read if it is less than was asked for. */
  lemma {:induction false} PrefixIs(m: Bytes, addr: nat, size: nat)
    ensures Holds(m, addr, ReadPrefix(m, addr, size))
    ensures |ReadPrefix(m, addr, size)| < size ==> addr + |ReadPrefix(m, addr, size)| !in m
    decreases size
  {
    if size > 0 && addr in m {
      var rest := ReadPrefix(m, addr + 1, size - 1);
      PrefixIs(m, addr + 1, size - 1);
      forall i | 0 <= i < 1 + |rest|
        ensures ByteIs(m, addr + i, ([m[addr]] + rest)[i])
      {
        if i > 0 { assert ByteIs(m, addr + 1 + (i - 1), rest[i - 1]); }
      }
    }
  }

  /** Bytes that can all be read are read. */
  lemma {:induction false} PrefixOf(m: Bytes, addr: nat, data: seq<Byte>)
    requires Holds(m, addr, data)
    ensures ReadPrefix(m, addr, |data|) == data
    decreases |data|
  {
    if data != [] {
      assert ByteIs(m, addr + 0, data[0]);
      forall i | 0 <= i < |data[1..]|
        ensures ByteIs(m, addr + 1 + i, data[1..][i])
      {
        assert ByteIs(m, addr + (i + 1), data[i + 1]);
      }
      PrefixOf(m, addr + 1, data[1..]);
    }
  }

  /** A read can be split where the first part succeeds. */
  lemma {:induction false} PrefixSplits(m: Bytes, addr: nat, first: nat, second: nat)
    requires |ReadPrefix(m, addr, first)| == first
    ensures ReadPrefix(m, addr, first + second) == ReadPrefix(m, addr, first) + ReadPrefix(m, addr + first, second)
    decreases first
  {
    if first > 0 {
      PrefixSplits(m, addr + 1, first - 1, second);
      assert ReadPrefix(m, addr + 1, first + second - 1) ==
             ReadPrefix(m, addr + 1, first - 1) + ReadPrefix(m, addr + first, second);
    } else {
      assert [] + ReadPrefix(m, addr, second) == ReadPrefix(m, addr, second);
    }
  }

  /** A page of the cache is the page of the memory. */
  ghost predicate IsPage(m: Bytes, page: nat, data: seq<Byte>) {
    |data| == PAGE && Holds(m, page * PAGE, data)
  }

  /** Part of a cached page is what reading the memory there gives. */
  lemma PagePart(m: Bytes, page: nat, data: seq<Byte>, start: nat, size: nat)
    requires IsPage(m, page, data) && start + size <= PAGE
    ensures ReadPrefix(m, page * PAGE + start, size) == data[start..start + size]
  {
    var part := data[start..start + size];
    forall i | 0 <= i < |part|
      ensures ByteIs(m, page * PAGE + start + i, part[i])
    {
      assert ByteIs(m, page * PAGE + (start + i), data[start + i]);
    }
    PrefixOf(m, page * PAGE + start, part);
  }

  class Memory {
    var bytes: Bytes

    method Read(addr: nat, size: nat) returns (data: seq<Byte>)
      ensures data == ReadPrefix(bytes, addr, size)
    {
      data := ReadPrefix(bytes, addr, size);
    }
  }

  class MemoryCache {
    const impl: Memory
    var cache: map<nat, seq<Byte>>

    constructor (impl: Memory)
      ensures this.impl == impl && Valid()
    {
      this.impl, cache := impl, map[];
    }

    /** The memory has not changed where pages were taken from it. */
    ghost predicate Valid()
      reads this, impl
    {
      forall page :: page in cache ==> IsPage(impl.bytes, page, cache[page])
    }

    method Clear()
      modifies this
      ensures Valid() && cache == map[]
    {
      cache := map[];
    }

    /** The page, from the cache or else from the memory, if all of it can be read. */
    method Page(page: nat) returns (found: bool, data: seq<Byte>)
      requires Valid()
      modifies this
      ensures Valid() && (found ==> IsPage(impl.bytes, page, data))
      ensures found <==> |ReadPrefix(impl.bytes, page * PAGE, PAGE)| == PAGE
      ensures cache == if found then old(cache)[page := data] else old(cache)
    {
      if page in cache {
        PagePart(impl.bytes, page, cache[page], 0, PAGE);
        return true, cache[page];
      }
      data := impl.Read(page * PAGE, PAGE);
      if |data| != PAGE { return false, []; }
      PrefixIs(impl.bytes, page * PAGE, PAGE);
      cache := cache[page := data];
      return true, data;
    }

    method InternalCachedRead(addr: nat, size: nat) returns (data: seq<Byte>)
      requires Valid() && size <= 64
      modifies this
      ensures Valid() && data == ReadPrefix(impl.bytes, addr, size)
    {
      hide IsPage, ReadPrefix;
      var page := addr / PAGE;
      var found, bytes := Page(page);
      if !found {
        data := impl.Read(addr, size);
        return;
      }
      var start, max_read := addr % PAGE, (page + 1) * PAGE - addr;
      assert |bytes| == PAGE by { PageSize(impl.bytes, page, bytes); }
      if size <= max_read {
        PagePart(impl.bytes, page, bytes, start, size);
        return bytes[start..start + size];
      }
      PagePart(impl.bytes, page, bytes, start, max_read);
      PrefixSplits(impl.bytes, addr, max_read, size - max_read);
      data := bytes[start..];
      page := page + 1;
      found, bytes := Page(page);
      if !found {
        var rest := impl.Read(page * PAGE, size - max_read);
        return data + rest;
      }
      assert |bytes| == PAGE by { PageSize(impl.bytes, page, bytes); }
      PagePart(impl.bytes, page, bytes, 0, size - max_read);
      data := data + bytes[..size - max_read];
    }

    /** Reading through the cache gives what reading the memory would. */
    method Read(addr: nat, size: nat) returns (data: seq<Byte>)
      requires Valid()
      modifies this
      ensures Valid() && data == ReadPrefix(impl.bytes, addr, size)
    {
      if size > 64 {
        data := impl.Read(addr, size);
      } else {
        data := InternalCachedRead(addr, size);
      }
    }
  }

  lemma PageSize(m: Bytes, page: nat, data: seq<Byte>)
    requires IsPage(m, page, data)
    ensures |data| == PAGE
  {
  }

  // ----- whole runs

  /** What can happen: reads, clears, and changes of the memory behind the cache. */
  datatype Event = Read(addr: nat, size: nat) | Clear | Change(bytes: Bytes)

  /** After a change the cache is cleared before it is read. */
  predicate WellUsed(events: seq<Event>, dirty: bool) {
    if events == [] then true
    else
      match events[0]
      case Read(_, _) => !dirty && WellUsed(events[1..], dirty)
      case Clear => WellUsed(events[1..], false)
      case Change(_) => WellUsed(events[1..], true)
  }

  /** What the reads would give without a cache. */
  function Direct(events: seq<Event>, m: Bytes): seq<seq<Byte>> {
    if events == [] then []
    else
      match events[0]
      case Read(addr, size) => [ReadPrefix(m, addr, size)] + Direct(events[1..], m)
      case Clear => Direct(events[1..], m)
      case Change(bytes) => Direct(events[1..], bytes)
  }

  /** Whatever the run, the cache cannot be told from the memory. */
  method Replay(memory: Memory, events: seq<Event>) returns (results: seq<seq<Byte>>)
    requires WellUsed(events, false)
    modifies memory
    ensures results == Direct(events, old(memory.bytes))
  {
    var cache := new MemoryCache(memory);
    results := [];
    ghost var dirty := false;
    assert events[0..] == events;
    for i := 0 to |events|
      invariant fresh(cache) && cache.impl == memory && (!dirty ==> cache.Valid()) && WellUsed(events[i..], dirty)
      invariant Direct(events, old(memory.bytes)) == results + Direct(events[i..], memory.bytes)
    {
      assert events[i..][0] == events[i] && events[i..][1..] == events[i + 1..];
      match events[i] {
        case Read(addr, size) =>
          var data := cache.Read(addr, size);
          results := results + [data];
        case Clear =>
          cache.Clear();
          dirty := false;
        case Change(bytes) =>
          memory.bytes := bytes;
          dirty := true;
      }
    }
  }
}
