/**
 The reader of the JIT list.  It reads the memory of a process that keeps
 running: before each word is read, the process may have made any number of
 writes.
 */
module JitReader {
  import opened JitList
  import opened OrderedKeys

  /** The words a reader looks at. */
  datatype Field = Head | Next(a: Addr) | SymAddr(a: Addr) | SymSize(a: Addr) | Seqlock(a: Addr)

  function Peek(w: World, f: Field): Option<nat> {
    match f
    case Head => Some(w.head)
    case Next(a) => if a in w.mem then Some(w.mem[a].next) else None
    case SymAddr(a) => if a in w.mem then Some(w.mem[a].sym.addr) else None
    case SymSize(a) => if a in w.mem then Some(w.mem[a].sym.size) else None
    case Seqlock(a) => if a in w.mem then Some(w.mem[a].seqlock) else None
  }

  /** The field leads to an entry with an odd seqlock. */
  predicate PointsToInvalid(w: World, f: Field) {
    var a := Peek(w, f);
    a.Some? && a.value != 0 && var s := Peek(w, Seqlock(a.value)); s.Some? && !Even(s.value)
  }

  /** The field is null or leads to an entry with an even seqlock. */
  predicate PointsToValid(w: World, f: Field) {
    var a := Peek(w, f);
    a.Some? && (a.value == 0 || var s := Peek(w, Seqlock(a.value)); s.Some? && Even(s.value))
  }

  /** The head, and the next field of whatever is linked, lead to something valid. */
  lemma LinksAreValid(w: World, u: Uid)
    requires Inv(w)
    ensures PointsToValid(w, Head) && (Linked(w, u) ==> PointsToValid(w, Next(u.address)))
  {
    assert u.address in w.list ==> Follows(w, u.address);
  }

  /** A history of moments, each reached from the ones before it. */
  ghost predicate History(h: seq<World>) {
    && |h| > 0
    && (forall i {:trigger Inv(h[i])} :: 0 <= i < |h| ==> Inv(h[i]))
    && (forall i, j {:trigger Evolves(h[i], h[j])} :: 0 <= i <= j < |h| ==> Evolves(h[i], h[j]))
  }

  lemma LinksAreValidNow(h: seq<World>, u: Uid)
    requires History(h)
    ensures PointsToValid(h[|h| - 1], Head) && (Linked(h[|h| - 1], u) ==> PointsToValid(h[|h| - 1], Next(u.address)))
  {
    assert Inv(h[|h| - 1]);
    LinksAreValid(h[|h| - 1], u);
  }

  lemma HistoryExtends(h: seq<World>, act: Write)
    requires History(h) && Enabled(h[|h| - 1], act)
    ensures History(h + [Apply(h[|h| - 1], act)])
  {
    var w := h[|h| - 1];
    var w' := Apply(w, act);
    assert Inv(w);
    WriteKeeps(w, act);
    var h' := h + [w'];
    forall i, j | 0 <= i <= j < |h'|
      ensures Evolves(h'[i], h'[j])
    {
      if j < |h| {
        assert Evolves(h[i], h[j]);
      } else if i < |h| {
        assert Evolves(h[i], w);
        EvolvesTransitive(h[i], w, w');
      }
    }
    forall i | 0 <= i < |h'|
      ensures Inv(h'[i])
    {
      if i < |h| { assert Inv(h[i]); }
    }
  }

  class Process {
    var w: World
    ghost var hist: seq<World>
    /** How many reads have failed, and how many symfiles did not load. */
    ghost var failures: nat

    constructor ()
      ensures Ok() && w == NothingListed && hist == [w] && failures == 0
    {
      w, hist, failures := NothingListed, [NothingListed], 0;
      new;
      StartsWell();
    }

    ghost predicate Ok()
      reads this
    {
      |hist| > 0 && History(hist) && hist[|hist| - 1] == w
    }

    /** Any number of writes by the process. */
    method Run()
      requires Ok()
      modifies `w, `hist
      ensures Ok() && old(hist) <= hist
    {
      var steps: nat :| true;
      while steps > 0
        invariant Ok() && old(hist) <= hist
      {
        var act: Write :| true;
        if Enabled(w, act) {
          HistoryExtends(hist, act);
          w := Apply(w, act);
          hist := hist + [w];
        }
        steps := steps - 1;
      }
    }

    /** Reads one word; the last moment of `hist` is the moment of the read.  Any read can fail. */
    method Read(f: Field) returns (r: Option<nat>)
      requires Ok()
      modifies this
      ensures Ok() && old(hist) <= hist
      ensures r.Some? ==> r == Peek(w, f)
      ensures old(failures) <= failures && (r.None? && failures == old(failures) ==> Peek(w, f).None?)
    {
      Run();
      var fails: bool :| true;
      r := if fails then None else Peek(w, f);
      if fails { failures := failures + 1; }
    }
  }

  /** What a walk from `a` adds to the cache in a process that does not move. */
  ghost function WalkIn(w: World, a: Addr, es: map<Uid, Symfile>): map<Uid, Symfile>
    requires Inv(w) && (a != 0 ==> a in w.list)
    decreases if a != 0 then Birth(w, a) + 1 else 0
  {
    if a == 0 || UidAt(w, a) in es then es
    else
      assert Follows(w, a);
      WalkIn(w, w.mem[a].next, if w.mem[a].sym.addr != 0 then es[UidAt(w, a) := w.mem[a].sym] else es)
  }

  // ----- what the reader knows

  /** Every cached symfile is the one of its incarnation, and not null. */
  ghost predicate Fits(w: World, es: map<Uid, Symfile>) {
    forall u :: u in es ==> u in w.born && u in w.syms && es[u] == w.syms[u] && es[u].addr != 0
  }

  /** What was seen is cached, except where there is no symfile. */
  ghost predicate Loaded(w: World, es: map<Uid, Symfile>, seen: set<Uid>) {
    forall u :: u in seen ==> u in w.syms && (w.syms[u].addr != 0 ==> u in es)
  }

  predicate HasSymfile(w: World, u: Uid) {
    u in w.syms && w.syms[u].addr != 0
  }

  /** Everything linked that has a symfile is cached. */
  ghost predicate Whole(w: World, es: map<Uid, Symfile>) {
    forall u :: Linked(w, u) && HasSymfile(w, u) ==> u in es
  }

  /** The incarnation at the head, if the head is not null. */
  function HeadUid(w: World): Uid {
    Uid(w.head, if w.head in w.mem then w.mem[w.head].seqlock else 0)
  }

  predicate HeadHasSymfile(w: World) {
    w.head == 0 || HasSymfile(w, HeadUid(w))
  }

  /** Every linked entry older than a cached one has been seen. */
  ghost predicate Closed(w: World, es: map<Uid, Symfile>, seen: set<Uid>) {
    forall e, x :: e in es && e in w.born && Linked(w, x) && x in w.born && w.born[x] < w.born[e] ==> x in seen
  }

  /** Every linked entry up to birth `b` has been seen, or is not younger than the walker's position `c`. */
  ghost predicate Covered(w: World, b: nat, seen: set<Uid>, c: Uid) {
    forall x :: Linked(w, x) && x in w.born && w.born[x] <= b ==>
                  x in seen || (c.address != 0 && c in w.born && w.born[x] <= w.born[c])
  }

  ghost predicate WasListed(h: seq<World>, from: nat, u: Uid) {
    exists t :: from <= t < |h| && Linked(h[t], u)
  }

  ghost predicate SeenSince(h: seq<World>, from: nat, us: set<Uid>) {
    forall u :: u in us ==> WasListed(h, from, u)
  }

  lemma FitsLater(h: seq<World>, i: nat, es: map<Uid, Symfile>)
    requires History(h) && i < |h| && Fits(h[i], es)
    ensures Fits(h[|h| - 1], es)
  {
    assert Evolves(h[i], h[|h| - 1]);
  }

  lemma LoadedLater(h: seq<World>, i: nat, es: map<Uid, Symfile>, seen: set<Uid>)
    requires History(h) && i < |h| && Loaded(h[i], es, seen)
    ensures Loaded(h[|h| - 1], es, seen)
  {
    assert Evolves(h[i], h[|h| - 1]);
  }

  lemma ClosedLater(h: seq<World>, i: nat, es: map<Uid, Symfile>, seen: set<Uid>)
    requires History(h) && i < |h| && Fits(h[i], es) && Closed(h[i], es, seen)
    ensures Closed(h[|h| - 1], es, seen)
  {
    var w, w' := h[i], h[|h| - 1];
    assert Inv(w) && Evolves(w, w');
    forall e, x | e in es && e in w'.born && Linked(w', x) && x in w'.born && w'.born[x] < w'.born[e]
      ensures x in seen
    {
      assert x in w.born && Linked(w, x);
    }
  }

  lemma SeenLater(h: seq<World>, h': seq<World>, from: nat, us: set<Uid>)
    requires SeenSince(h, from, us) && h <= h'
    ensures SeenSince(h', from, us)
  {
    forall u | u in us
      ensures WasListed(h', from, u)
    {
      assert WasListed(h, from, u);
      var t :| from <= t < |h| && Linked(h[t], u);
      assert Linked(h'[t], u);
    }
  }

  lemma SeenEarlier(h: seq<World>, from: nat, top: nat, us: set<Uid>)
    requires SeenSince(h, top, us) && from <= top
    ensures SeenSince(h, from, us)
  {
    forall u | u in us
      ensures WasListed(h, from, u)
    {
      assert WasListed(h, top, u);
    }
  }

  /** With a null head nothing is listed, then or later, that was born before. */
  lemma NullHead(h: seq<World>, t: nat)
    requires History(h) && t < |h| && h[t].head == 0
    ensures forall x :: !Linked(h[t], x)
    ensures forall x :: Linked(h[|h| - 1], x) ==> x !in h[t].born
  {
    assert Inv(h[t]) && Evolves(h[t], h[|h| - 1]);
    assert forall x :: x in h[t].list ==> Birth(h[t], x) < h[t].clock;
  }

  /** `n` is what the next field of `c` leads to at moment `m`. */
  ghost predicate Successor(m: World, c: Uid, n: Uid) {
    && Valid(m, c) && c in m.born && YoungestBelow(m, m.born[c], n.address)
    && (n.address != 0 ==> Linked(m, n))
  }

  lemma SuccessorIsOlder(h: seq<World>, t: nat, c: Uid, n: Uid)
    requires History(h) && t < |h| && Successor(h[t], c, n) && n.address != 0
    ensures c in h[|h| - 1].born && n in h[|h| - 1].born && h[|h| - 1].born[n] < h[|h| - 1].born[c]
  {
    assert Inv(h[t]) && Evolves(h[t], h[|h| - 1]);
    assert n == UidAt(h[t], n.address);
  }

  /** Following the next field of `c`, read at moment `t`, leaves no linked entry out. */
  lemma CoverageAdvances(h: seq<World>, i: nat, t: nat, b: nat, seen: set<Uid>, c: Uid, n: Uid)
    requires History(h) && i <= t < |h|
    requires b < h[i].clock && Covered(h[i], b, seen, c) && c in h[i].born && c in seen
    requires Successor(h[t], c, n)
    ensures Covered(h[|h| - 1], b, seen, n)
  {
    var m, w' := h[t], h[|h| - 1];
    forall x | Linked(w', x) && x in w'.born && w'.born[x] <= b
      ensures x in seen || (n.address != 0 && n in w'.born && w'.born[x] <= w'.born[n])
    {
      LinkedBefore(h, i, t, b, x);
      if x !in seen {
        assert Evolves(h[i], h[t]);
        OlderIsFurther(h, t, c, n, x);
      }
    }
  }

  /** An entry born by moment `i` and still linked has been linked all along. */
  lemma LinkedBefore(h: seq<World>, i: nat, t: nat, b: nat, x: Uid)
    requires History(h) && i <= t < |h| && b < h[i].clock
    requires Linked(h[|h| - 1], x) && x in h[|h| - 1].born && h[|h| - 1].born[x] <= b
    ensures x in h[i].born && Linked(h[i], x) && h[i].born[x] == h[|h| - 1].born[x]
    ensures x in h[t].born && Linked(h[t], x) && h[t].born[x] == h[|h| - 1].born[x]
  {
    assert Evolves(h[i], h[|h| - 1]) && Evolves(h[i], h[t]) && Evolves(h[t], h[|h| - 1]);
  }

  /** Any linked entry other than `c` that is not younger than `c` is not younger than its successor. */
  lemma OlderIsFurther(h: seq<World>, t: nat, c: Uid, n: Uid, x: Uid)
    requires History(h) && t < |h| && Successor(h[t], c, n)
    requires x in h[t].born && Linked(h[t], x) && x != c && h[t].born[x] <= h[t].born[c]
    ensures n.address != 0 && n in h[|h| - 1].born && h[t].born[x] <= h[|h| - 1].born[n]
  {
    var m := h[t];
    assert Inv(m) && Evolves(m, h[|h| - 1]);
    assert !SameBirth(m, x, c);
    assert x == UidAt(m, x.address);
    assert Birth(m, x.address) < m.born[c];
    assert n == UidAt(m, n.address);
  }

  /**
   The state of a walk that began at birth `b` with `entries` cached, and now
   stands before `c` with `es` cached.
   */
  ghost predicate Walking(w: World, entries: map<Uid, Symfile>, es: map<Uid, Symfile>, seen: set<Uid>, b: nat, c: Uid) {
    && Fits(w, es) && Closed(w, entries, seen) && Covered(w, b, seen, c)
    && b < w.clock && entries.Keys <= es.Keys <= seen
    && (c.address != 0 ==> c in w.born && w.born[c] <= b)
    && (forall e :: e in es && e !in entries ==>
                      e in w.born && w.born[e] <= b && (c.address != 0 ==> c in w.born && w.born[c] < w.born[e]))
  }

  /** Visiting `c`, whose successor at moment `t` is `n`, moves the walk one entry on. */
  lemma WalkAdvances(h: seq<World>, i: nat, t: nat, entries: map<Uid, Symfile>, es: map<Uid, Symfile>,
                     es': map<Uid, Symfile>, seen: set<Uid>, b: nat, c: Uid, n: Uid)
    requires History(h) && i <= t < |h|
    requires Walking(h[i], entries, es, seen, b, c) && Fits(h[i], entries) && c.address != 0
    requires Successor(h[t], c, n)
    requires c in h[|h| - 1].syms && (es' == es || (es' == es[c := h[|h| - 1].syms[c]] && h[|h| - 1].syms[c].addr != 0))
    ensures Walking(h[|h| - 1], entries, es', seen + {c}, b, n)
  {
    hide Inv, Evolves, YoungestBelow, Linked;
    var w, w' := h[i], h[|h| - 1];
    CoverageAdvances(h, i, t, b, seen + {c}, c, n);
    ClosedLater(h, i, entries, seen + {c});
    FitsLater(h, i, es);
    BirthsStay(h, i);
    assert c in w'.born && w'.born[c] == w.born[c];
    if n.address != 0 { SuccessorIsOlder(h, t, c, n); }
  }

  lemma BirthsStay(h: seq<World>, i: nat)
    requires History(h) && i < |h|
    ensures h[i].clock <= h[|h| - 1].clock
    ensures forall u :: u in h[i].born ==> u in h[|h| - 1].born && h[|h| - 1].born[u] == h[i].born[u]
  {
    assert Evolves(h[i], h[|h| - 1]);
  }

  /** A finished walk has seen everything linked up to where it began. */
  lemma WalkEnds(w: World, b: nat, es: map<Uid, Symfile>, seen: set<Uid>, c: Uid)
    requires Inv(w) && Covered(w, b, seen, c)
    requires c.address == 0 || (c in es && c in seen && c in w.born && Closed(w, map[c := es[c]], seen))
    ensures forall x :: Linked(w, x) && x in w.born && w.born[x] <= b ==> x in seen
  {
    forall x | Linked(w, x) && x in w.born && w.born[x] <= b
      ensures x in seen
    {
      if x !in seen && SameBirth(w, x, c) {
        assert false;
      }
    }
  }

  /** Two reads of the same even seqlock pin down every moment in between. */
  lemma Sandwiched(h: seq<World>, t0: nat, t: nat, u: Uid)
    requires History(h) && t0 <= t < |h| && Even(u.seqlock)
    requires Peek(h[t0], Seqlock(u.address)) == Some(u.seqlock)
    requires Peek(h[|h| - 1], Seqlock(u.address)) == Some(u.seqlock)
    ensures Valid(h[t], u)
  {
    assert Evolves(h[t0], h[t]) && Evolves(h[t], h[|h| - 1]);
    ValidBetween(h[t0], h[t], h[|h| - 1], u);
  }

  /** Words read while an incarnation stays valid are that incarnation's symfile. */
  lemma SymfileRead(h: seq<World>, t0: nat, t1: nat, t2: nat, u: Uid, sym: Symfile)
    requires History(h) && t0 <= t1 <= t2 < |h| && Valid(h[t0], u)
    requires Peek(h[t1], SymAddr(u.address)) == Some(sym.addr)
    requires Peek(h[t2], SymSize(u.address)) == Some(sym.size)
    requires Peek(h[|h| - 1], Seqlock(u.address)) == Some(u.seqlock)
    ensures u in h[|h| - 1].syms && h[|h| - 1].syms[u] == sym
  {
    Sandwiched(h, t0, t1, u);
    Sandwiched(h, t0, t2, u);
    assert Inv(h[t1]) && Inv(h[t2]);
    assert Evolves(h[t1], h[|h| - 1]) && Evolves(h[t2], h[|h| - 1]);
  }

  /** The symfile recorded for an incarnation does not change. */
  lemma StillThere(h: seq<World>, t0: nat, w1: World, u: Uid)
    requires History(h) && t0 < |h| && Valid(h[t0], u) && w1 in h
    ensures u in h[|h| - 1].syms && (u in w1.syms ==> w1.syms[u] == h[|h| - 1].syms[u])
  {
    var i :| 0 <= i < |h| && h[i] == w1;
    assert Inv(h[t0]) && Evolves(h[t0], h[|h| - 1]) && Evolves(h[i], h[|h| - 1]);
  }

  /** The next field, read while its entry stays valid, leads to the youngest older entry. */
  lemma NextRead(h: seq<World>, t0: nat, t: nat, u: Uid, n: Uid)
    requires History(h) && t0 <= t < |h| && Linked(h[t0], u)
    requires Peek(h[t], Next(u.address)) == Some(n.address) && (n.address != 0 ==> Valid(h[t], n))
    requires Peek(h[|h| - 1], Seqlock(u.address)) == Some(u.seqlock)
    ensures Successor(h[t], u, n)
  {
    Sandwiched(h, t0, t, u);
    assert Inv(h[t0]) && Inv(h[t]) && Evolves(h[t0], h[t]);
    assert u == UidAt(h[t0], u.address);
    NextIsYoungestBelow(h[t], u);
  }

  /** A walk may begin at the head read at moment `t`. */
  lemma WalkBegins(h: seq<World>, t: nat, entries: map<Uid, Symfile>, seen: set<Uid>, u: Uid)
    requires History(h) && t < |h| && Peek(h[t], Head) == Some(u.address) && u.address != 0 && Valid(h[t], u)
    requires Fits(h[|h| - 1], entries) && Closed(h[|h| - 1], entries, seen) && entries.Keys <= seen
    ensures Linked(h[t], u) && u in h[|h| - 1].born
    ensures Walking(h[|h| - 1], entries, entries, seen, h[|h| - 1].born[u], u)
  {
    assert Inv(h[t]) && Inv(h[|h| - 1]) && Evolves(h[t], h[|h| - 1]);
    assert u == UidAt(h[t], u.address);
  }

  /** A finished walk leaves the cache closed and has seen every entry listed since it began. */
  lemma WalkDone(h: seq<World>, t: nat, entries: map<Uid, Symfile>, es: map<Uid, Symfile>, seen: set<Uid>, u: Uid,
                 c: Uid)
    requires History(h) && t < |h| && Peek(h[t], Head) == Some(u.address) && u.address != 0 && Valid(h[t], u)
    requires u in h[|h| - 1].born && Walking(h[|h| - 1], entries, es, seen, h[|h| - 1].born[u], c)
    requires c.address == 0 || c in es
    ensures Closed(h[|h| - 1], es, seen)
    ensures forall x :: Linked(h[|h| - 1], x) && x in h[t].born ==> x in seen
  {
    var w := h[|h| - 1];
    var b := w.born[u];
    assert Inv(w);
    if c.address != 0 { assert c in entries; }
    WalkEnds(w, b, es, seen, c);
    forall x | Linked(w, x) && x in h[t].born
      ensures x in seen
    {
      ListedUnderHead(h, t, u, x);
    }
  }

  lemma ListedUnderHead(h: seq<World>, t: nat, u: Uid, x: Uid)
    requires History(h) && t < |h| && h[t].head == u.address && u.address != 0 && Valid(h[t], u)
    requires Linked(h[|h| - 1], x) && x in h[t].born
    ensures x in h[|h| - 1].born && u in h[|h| - 1].born && h[|h| - 1].born[x] <= h[|h| - 1].born[u]
  {
    assert Inv(h[t]) && Evolves(h[t], h[|h| - 1]);
    assert u == UidAt(h[t], u.address) && x == UidAt(h[t], x.address);
    assert Birth(h[t], x.address) <= Birth(h[t], u.address);
  }

  /** If the head read at moment `t` was already cached, all that was listed then had been seen. */
  lemma HeadWasCached(h: seq<World>, i: nat, t: nat, entries: map<Uid, Symfile>, seen: set<Uid>, u: Uid)
    requires History(h) && i <= t < |h| && Peek(h[t], Head) == Some(u.address)
    requires Fits(h[i], entries) && Closed(h[i], entries, seen) && entries.Keys <= seen
    requires u.address != 0 ==> Valid(h[t], u) && u in entries
    ensures forall x :: Linked(h[t], x) ==> x in seen
  {
    var m := h[t];
    forall x | Linked(m, x)
      ensures x in seen
    {
      assert Inv(m);
      assert x == UidAt(m, x.address);
      assert Birth(m, x.address) <= Birth(m, m.head);
      if x != u {
        assert u == UidAt(m, u.address);
        assert !SameBirth(m, x, u);
        ClosedLater(h[..t + 1], i, entries, seen);
      }
    }
  }

  /** The walk of `Walking` at the end of history `h`, with `c` listed at moment `t`. */
  ghost predicate AtEntry(h: seq<World>, top: nat, t: nat, cached: map<Uid, Symfile>, entries: map<Uid, Symfile>,
                          es: map<Uid, Symfile>, seen: set<Uid>, b: nat, c: Uid) {
    && History(h) && top <= t < |h| && Fits(h[|h| - 1], entries) && Fits(h[|h| - 1], cached)
    && (c.address != 0 ==> Linked(h[t], c))
    && Walking(h[|h| - 1], entries, es, seen, b, c)
    && SeenSince(h, top, es.Keys - entries.Keys)
  }

  lemma NextEntry(h0: seq<World>, h: seq<World>, top: nat, t: nat, cached: map<Uid, Symfile>,
                  entries: map<Uid, Symfile>, es: map<Uid, Symfile>, es': map<Uid, Symfile>, seen: set<Uid>,
                  b: nat, c: Uid, t': nat, n: Uid)
    requires AtEntry(h0, top, t, cached, entries, es, seen, b, c) && History(h) && h0 <= h
    requires |h0| - 1 <= t' < |h| && Successor(h[t'], c, n) && c.address != 0
    requires c in h[|h| - 1].syms && (es' == es || (es' == es[c := h[|h| - 1].syms[c]] && h[|h| - 1].syms[c].addr != 0))
    ensures AtEntry(h, top, t', cached, entries, es', seen + {c}, b, n)
    ensures c in h0[|h0| - 1].born
    ensures n.address != 0 ==> n in h[|h| - 1].born && h[|h| - 1].born[n] < h0[|h0| - 1].born[c]
  {
    var i := |h0| - 1;
    WalkAdvances(h, i, t', entries, es, es', seen, b, c, n);
    FitsLater(h, i, entries);
    FitsLater(h, i, cached);
    BirthsStay(h, i);
    if n.address != 0 { SuccessorIsOlder(h, t', c, n); }
    SeenLater(h0, h, top, es.Keys - entries.Keys);
    assert Linked(h[t], c) && WasListed(h, top, c);
  }

  lemma LoadedMore(h0: seq<World>, h: seq<World>, es: map<Uid, Symfile>, es': map<Uid, Symfile>, seen: set<Uid>, c: Uid)
    requires History(h0) && History(h) && h0 <= h && es.Keys <= es'.Keys && c in h[|h| - 1].syms
    ensures Loaded(h0[|h0| - 1], es, seen) && (c in es' || h[|h| - 1].syms[c].addr == 0) ==>
              Loaded(h[|h| - 1], es', seen + {c})
  {
    if Loaded(h0[|h0| - 1], es, seen) { LoadedLater(h, |h0| - 1, es, seen); }
  }

  /** If `first` is linked, a walk from it that does not see the process move has `es` cached. */
  ghost predicate WalkedIn(w: World, first: Uid, entries: map<Uid, Symfile>, es: map<Uid, Symfile>) {
    Inv(w) && (Linked(w, first) ==> es == WalkIn(w, first.address, entries))
  }

  /** Such a walk stands before `u` with `es` cached. */
  ghost predicate WalksOn(w: World, first: Uid, entries: map<Uid, Symfile>, u: Uid, es: map<Uid, Symfile>) {
    && Inv(w)
    && (Linked(w, first) ==>
          && (u.address != 0 ==> Linked(w, u))
          && WalkIn(w, first.address, entries) == WalkIn(w, u.address, es))
  }

  lemma WalkStep(h: seq<World>, t: nat, first: Uid, entries: map<Uid, Symfile>, u: Uid, es: map<Uid, Symfile>,
                 es': map<Uid, Symfile>, next: Uid)
    requires |h| > 0 && t == |h| - 1 && WalksOn(h[t], first, entries, u, es) && u.address != 0 && u !in es
    requires Successor(h[t], u, next) && u in h[t].syms
    requires es' == es || (es' == es[u := h[t].syms[u]] && h[t].syms[u].addr != 0)
    requires u in es' || h[t].syms[u].addr == 0
    ensures WalksOn(h[t], first, entries, next, es')
  {
    var w := h[t];
    if Linked(w, first) {
      assert u == UidAt(w, u.address) && w.syms[u] == w.mem[u.address].sym;
      assert Follows(w, u.address);
      SameSuccessor(w, w.born[u], w.mem[u.address].next, next.address);
    }
  }

  /**
   A walk from `first` that began at the end of history `h0`, and now stands
   before `u`.  `clean` says that nothing has failed.
   */
  ghost predicate WalkSoFar(h0: seq<World>, h: seq<World>, clean: bool, top: nat, t: nat, cached: map<Uid, Symfile>,
                            entries: map<Uid, Symfile>, es: map<Uid, Symfile>, seen0: set<Uid>, seen: set<Uid>, b: nat,
                            first: Uid, u: Uid) {
    && AtEntry(h, top, t, cached, entries, es, seen, b, u) && |h0| > 0 && h0 <= h && seen0 <= seen
    && (u == first || first in seen)
    && (clean && Loaded(h0[|h0| - 1], entries, seen0) ==> Loaded(h[|h| - 1], es, seen))
    && (clean && h == h0 ==> WalksOn(h[|h| - 1], first, entries, u, es))
  }

  lemma WalkStarts(h: seq<World>, top: nat, cached: map<Uid, Symfile>, entries: map<Uid, Symfile>, seen: set<Uid>,
                   b: nat, first: Uid)
    requires AtEntry(h, top, top, cached, entries, entries, seen, b, first)
    ensures WalkSoFar(h, h, true, top, top, cached, entries, entries, seen, seen, b, first, first)
  {
    hide WalkIn;
    assert Inv(h[|h| - 1]);
  }

  lemma EntryIsListed(h0: seq<World>, h: seq<World>, clean: bool, top: nat, t: nat, cached: map<Uid, Symfile>,
                      entries: map<Uid, Symfile>, es: map<Uid, Symfile>, seen0: set<Uid>, seen: set<Uid>, b: nat,
                      first: Uid, c: Uid)
    requires WalkSoFar(h0, h, clean, top, t, cached, entries, es, seen0, seen, b, first, c) && c.address != 0
    ensures top <= t < |h| && Fits(h[|h| - 1], cached) && Linked(h[t], c) && c in h[|h| - 1].born && h0 <= h
  {
  }

  lemma WalkGoesOn(h0: seq<World>, h1: seq<World>, h: seq<World>, clean1: bool, clean: bool, top: nat, t: nat,
                   cached: map<Uid, Symfile>, entries: map<Uid, Symfile>, es1: map<Uid, Symfile>,
                   es: map<Uid, Symfile>, seen0: set<Uid>, seen: set<Uid>, b: nat, first: Uid, c: Uid, t': nat,
                   next: Uid)
    requires WalkSoFar(h0, h1, clean1, top, t, cached, entries, es1, seen0, seen, b, first, c) && c.address != 0
             && c !in es1
    requires History(h) && h1 <= h && (clean ==> clean1) && |h1| - 1 <= t' < |h| && Successor(h[t'], c, next)
    requires c in h[|h| - 1].syms && (es == es1 || (es == es1[c := h[|h| - 1].syms[c]] && h[|h| - 1].syms[c].addr != 0))
    requires clean ==> c in es || h[|h| - 1].syms[c].addr == 0
    ensures WalkSoFar(h0, h, clean, top, t', cached, entries, es, seen0, seen + {c}, b, first, next)
    ensures c in h1[|h1| - 1].born
    ensures next.address != 0 ==> next in h[|h| - 1].born && h[|h| - 1].born[next] < h1[|h1| - 1].born[c]
  {
    hide Loaded, Successor, WalksOn;
    NextEntry(h1, h, top, t, cached, entries, es1, es, seen, b, c, t', next);
    hide AtEntry, History;
    LoadedMore(h1, h, es1, es, seen, c);
    if clean && h == h0 { WalkStep(h, t', first, entries, c, es1, es, next); }
  }

  lemma WalkStops(h0: seq<World>, h: seq<World>, clean: bool, top: nat, t: nat, cached: map<Uid, Symfile>,
                  entries: map<Uid, Symfile>, es: map<Uid, Symfile>, seen0: set<Uid>, seen: set<Uid>, b: nat,
                  first: Uid, u: Uid)
    requires WalkSoFar(h0, h, clean, top, t, cached, entries, es, seen0, seen, b, first, u)
             && (u.address == 0 || u in es)
    requires first.address != 0
    ensures h0 <= h && AtEntry(h, top, t, cached, entries, es, seen, b, u) && seen0 <= seen && first in seen
    ensures clean && Loaded(h0[|h0| - 1], entries, seen0) ==> Loaded(h[|h| - 1], es, seen)
    ensures clean && h == h0 ==> WalkedIn(h[|h| - 1], first, entries, es)
  {
    hide Loaded, Closed, Covered, SeenSince, Inv;
    if u in es { assert u in es.Keys; }
    assert u.address != 0 && Linked(h[|h| - 1], u) ==> u == UidAt(h[|h| - 1], u.address);
  }

  lemma SameSuccessor(w: World, b: nat, n: Addr, n': Addr)
    requires Inv(w) && YoungestBelow(w, b, n) && YoungestBelow(w, b, n')
    ensures n == n'
  {
    if n != 0 && n' != 0 {
      assert UidAt(w, n) in w.born && UidAt(w, n') in w.born;
      assert SameBirth(w, UidAt(w, n), UidAt(w, n'));
    }
  }

  lemma PassBegins(h: seq<World>, start: nat, top: nat, cached: map<Uid, Symfile>, entries: map<Uid, Symfile>,
                   seen: set<Uid>, u: Uid)
    requires History(h) && start <= top < |h| && Fits(h[start], cached) && Fits(h[start], entries)
    requires Closed(h[start], entries, seen) && entries.Keys <= seen
    requires Peek(h[top], Head) == Some(u.address) && u.address != 0 && Valid(h[top], u)
    ensures u in h[|h| - 1].born && AtEntry(h, top, top, cached, entries, entries, seen, h[|h| - 1].born[u], u)
  {
    FitsLater(h, start, cached);
    FitsLater(h, start, entries);
    ClosedLater(h, start, entries, seen);
    WalkBegins(h, top, entries, seen, u);
  }

  /** What a pass over the new entries, begun at the head of moment `top`, leaves behind. */
  ghost predicate PassDone(h: seq<World>, start: nat, top: nat, entries: map<Uid, Symfile>, es: map<Uid, Symfile>,
                           seen: set<Uid>) {
    && start <= top < |h| && Fits(h[|h| - 1], es) && Closed(h[|h| - 1], es, seen)
    && entries.Keys <= es.Keys <= seen && SeenSince(h, start, es.Keys - entries.Keys)
    && (forall x :: Linked(h[|h| - 1], x) && x in h[top].born ==> x in seen)
    && (h[top].head != 0 ==> HeadUid(h[top]) in seen)
    && (es.Keys == entries.Keys && (h[top].head == 0 || HeadUid(h[top]) in es) ==>
          forall x :: Linked(h[top], x) ==> x in seen)
  }

  lemma PassFindsNothing(h: seq<World>, start: nat, top: nat, entries: map<Uid, Symfile>, seen: set<Uid>)
    requires History(h) && start <= top < |h| && Fits(h[start], entries) && Closed(h[start], entries, seen)
    requires entries.Keys <= seen && h[top].head == 0
    ensures PassDone(h, start, top, entries, entries, seen)
  {
    FitsLater(h, start, entries);
    ClosedLater(h, start, entries, seen);
    NullHead(h, top);
  }

  lemma PassEnds(h0: seq<World>, h: seq<World>, start: nat, top: nat, t: nat, cached: map<Uid, Symfile>,
                 entries: map<Uid, Symfile>, es: map<Uid, Symfile>, seen0: set<Uid>, seen: set<Uid>, u: Uid, last: Uid)
    requires start < |h| && Fits(h[start], entries) && Closed(h[start], entries, seen0)
    requires History(h0) && h0 <= h && start <= top < |h0| && u in h0[|h0| - 1].born
    requires AtEntry(h, top, t, cached, entries, es, seen, h0[|h0| - 1].born[u], last)
    requires (last.address == 0 || last in es) && seen0 <= seen
    requires Peek(h[top], Head) == Some(u.address) && u.address != 0 && Valid(h[top], u)
    requires u in seen && entries.Keys <= seen0
    ensures PassDone(h, start, top, entries, es, seen)
  {
    BirthsStay(h, |h0| - 1);
    WalkDone(h, top, entries, es, seen, u, last);
    SeenEarlier(h, start, top, es.Keys - entries.Keys);
    if es.Keys == entries.Keys && u in es {
      assert u in es.Keys;
      HeadWasCached(h, start, top, entries, seen0, u);
    }
  }

  /** In a process that does not move, a pass makes the cache whole, and adds nothing to one that is whole. */
  lemma QuietPass(h: seq<World>, top: nat, entries: map<Uid, Symfile>, es: map<Uid, Symfile>, seen: set<Uid>)
    requires History(h) && PassDone(h, |h| - 1, top, entries, es, seen) && Loaded(h[|h| - 1], es, seen)
    ensures Whole(h[|h| - 1], es) && (Whole(h[|h| - 1], entries) ==> |es| == |entries|)
  {
    var w := h[|h| - 1];
    assert Inv(w);
    BornIfLinked(w);
    if Whole(w, entries) { NothingNew(h, entries, es); }
  }

  lemma BornIfLinked(w: World)
    requires Inv(w)
    ensures forall u :: Linked(w, u) ==> u in w.born
  {
    forall u | Linked(w, u)
      ensures u in w.born
    {
      assert u == UidAt(w, u.address);
    }
  }

  lemma NothingNew(h: seq<World>, entries: map<Uid, Symfile>, es: map<Uid, Symfile>)
    requires |h| > 0 && Whole(h[|h| - 1], entries) && Fits(h[|h| - 1], es) && entries.Keys <= es.Keys
    requires SeenSince(h, |h| - 1, es.Keys - entries.Keys)
    ensures |es| == |entries|
  {
    hide Linked, SeenSince, Fits;
    NewIsListed(h, entries, es);
    var extra := es.Keys - entries.Keys;
    if e :| e in extra {
      assert false;
    }
    assert es.Keys == entries.Keys + extra;
    assert |es| == |es.Keys| && |entries| == |entries.Keys|;
  }

  lemma NewIsListed(h: seq<World>, entries: map<Uid, Symfile>, es: map<Uid, Symfile>)
    requires |h| > 0 && Fits(h[|h| - 1], es) && SeenSince(h, |h| - 1, es.Keys - entries.Keys)
    ensures forall e :: e in es.Keys - entries.Keys ==> Linked(h[|h| - 1], e) && HasSymfile(h[|h| - 1], e)
  {
    forall e | e in es.Keys - entries.Keys
      ensures Linked(h[|h| - 1], e) && HasSymfile(h[|h| - 1], e)
    {
      assert WasListed(h, |h| - 1, e) && e in es;
    }
  }

  lemma SeenGrows(h0: seq<World>, h: seq<World>, from: nat, i0: nat, us: set<Uid>, us': set<Uid>)
    requires SeenSince(h0, from, us) && h0 <= h && SeenSince(h, i0, us' - us) && from <= i0
    ensures SeenSince(h, from, us')
  {
    SeenLater(h0, h, from, us);
    SeenEarlier(h, from, i0, us' - us);
    assert forall u :: u in us' ==> u in us || u in us' - us;
  }

  /** What the passes made since moment `start` have left behind. */
  ghost predicate Collecting(h: seq<World>, start: nat, entries: map<Uid, Symfile>, seen: set<Uid>) {
    && History(h) && start < |h| && Fits(h[|h| - 1], entries) && Closed(h[|h| - 1], entries, seen)
    && entries.Keys <= seen
    && SeenSince(h, start, entries.Keys)
  }

  lemma NothingYet(h: seq<World>, start: nat)
    requires History(h) && start == |h| - 1
    ensures Collecting(h, start, map[], {}) && Loaded(h[start], map[], {})
  {
    var nothing: map<Uid, Symfile> := map[];
    assert nothing.Keys == {};
  }

  /** One more pass; if it finds nothing new, the reading is done. */
  lemma PassCollects(h0: seq<World>, h: seq<World>, start: nat, top: nat, entries: map<Uid, Symfile>,
                     es: map<Uid, Symfile>, seen: set<Uid>)
    requires |h0| > 0 && SeenSince(h0, start, entries.Keys) && start < |h0| && History(h) && h0 <= h
    requires PassDone(h, |h0| - 1, top, entries, es, seen)
    ensures Collecting(h, start, es, seen)
    ensures |es| == |entries| ==> es.Keys == entries.Keys && Snapshot(h, start, top, es, seen)
  {
    SeenGrows(h0, h, start, |h0| - 1, entries.Keys, es.Keys);
    assert |es| == |es.Keys| && |entries| == |entries.Keys|;
    if |es| == |entries| { SameSize(entries.Keys, es.Keys); }
  }

  /** A pass that adds nothing, and in which everything loaded, leaves a complete cache. */
  lemma PassIsComplete(h: seq<World>, start: nat, top: nat, entries: map<Uid, Symfile>, es: map<Uid, Symfile>,
                       seen: set<Uid>)
    requires History(h) && PassDone(h, start, top, entries, es, seen) && Loaded(h[|h| - 1], es, seen)
             && es.Keys == entries.Keys
    ensures Complete(h, top, es)
  {
    var w, w' := h[top], h[|h| - 1];
    assert Inv(w) && Evolves(w, w');
    assert w.head != 0 ==> Linked(w, HeadUid(w));
    BornIfLinked(w);
  }

  lemma SameSize(a: set<Uid>, b: set<Uid>)
    requires a <= b && |a| == |b|
    ensures a == b
  {
    assert |b - a| == |b| - |a|;
  }

  /**
   The cache after a successful read: each entry was listed during the read.  If
   the head that was last read is cached, all that was listed then was `seen`;
   else what was not seen has left the list since.
   */
  ghost predicate Snapshot(h: seq<World>, from: nat, top: nat, es: map<Uid, Symfile>, seen: set<Uid>) {
    && from <= top < |h| && Fits(h[|h| - 1], es) && SeenSince(h, from, es.Keys) && es.Keys <= seen
    && (h[top].head != 0 ==> HeadUid(h[top]) in seen)
    && (h[top].head == 0 || HeadUid(h[top]) in es ==> forall x :: Linked(h[top], x) ==> x in seen)
    && (forall x :: Linked(h[|h| - 1], x) && x in h[top].born ==> x in seen)
  }

  /**
   What is listed at moment `top` and has a symfile is cached, if the head has
   one or there is no head, or if it is still listed; in particular everything
   is cached if everything has a symfile.
   */
  ghost predicate Complete(h: seq<World>, top: nat, es: map<Uid, Symfile>) {
    && top < |h| && (HeadHasSymfile(h[top]) ==> Whole(h[top], es))
    && (forall x :: Linked(h[top], x) && Linked(h[|h| - 1], x) && HasSymfile(h[top], x) ==> x in es)
    && ((forall x :: Linked(h[top], x) ==> HasSymfile(h[top], x)) ==> forall x :: Linked(h[top], x) ==> x in es)
  }

  /** In a process that does not move, a snapshot in which everything loaded has all that is linked. */
  lemma SnapshotIsWhole(h: seq<World>, top: nat, es: map<Uid, Symfile>, seen: set<Uid>)
    requires History(h) && Snapshot(h, |h| - 1, top, es, seen) && Loaded(h[|h| - 1], es, seen)
    ensures Whole(h[|h| - 1], es)
  {
    assert Inv(h[|h| - 1]);
    BornIfLinked(h[|h| - 1]);
  }

  const MAX_RACE_RETRIES := 16
  const MAX_HEAD_RETRIES := 16

  class Reader {
    var entries_: map<Uid, Symfile>
    const p: Process

    constructor (p: Process)
      ensures this.p == p && entries_ == map[]
    {
      this.p := p;
      entries_ := map[];
    }

    ghost predicate Ok()
      reads this, p
    {
      p.Ok() && Fits(p.w, entries_)
    }

    /** One round: the field's address, read at moment `t`, and then the seqlock of its target. */
    method ReadRound(f: Field) returns (ok: bool, address: Addr, seqlock: nat, ghost t: nat)
      requires p.Ok()
      modifies p
      ensures p.Ok() && old(p.hist) <= p.hist
      ensures ok ==> old(|p.hist|) - 1 <= t < |p.hist| && Peek(p.hist[t], f) == Some(address)
      ensures ok ==> if address == 0 then seqlock == 0 else Peek(p.w, Seqlock(address)) == Some(seqlock)
      ensures old(p.failures) <= p.failures
      ensures !ok && p.failures == old(p.failures) && p.hist == old(p.hist) ==> !PointsToValid(p.w, f)
    {
      ok, address, seqlock := false, 0, 0;
      var a := p.Read(f);
      t := |p.hist| - 1;
      if a.None? { return; }
      address := a.value;
      if address != 0 {
        var s := p.Read(Seqlock(address));
        if s.None? { return; }
        seqlock := s.value;
      }
      ok := true;
    }

    /** Reads the field in two rounds that must agree; `t` is the moment of the second address read. */
    method ReadNextField(f: Field) returns (ok: bool, uid: Uid, race: bool, ghost t: nat)
      requires p.Ok()
      modifies p
      ensures p.Ok() && old(p.hist) <= p.hist
      ensures race ==> !ok
      ensures ok ==> old(|p.hist|) - 1 <= t < |p.hist|
      ensures ok ==> Peek(p.hist[t], f) == Some(uid.address)
      ensures ok && uid.address != 0 ==> Valid(p.hist[t], uid)
      ensures race && p.hist == old(p.hist) ==> PointsToInvalid(p.w, f)
      ensures old(p.failures) <= p.failures
      ensures !ok && p.failures == old(p.failures) && p.hist == old(p.hist) ==> !PointsToValid(p.w, f)
    {
      ok, uid, race, t := false, Uid(0, 0), false, 0;
      var ok0, address0, seqlock0, _ := ReadRound(f);
      if !ok0 { return; }
      ghost var t0 := |p.hist| - 1;
      var ok1, address1, seqlock1, t1 := ReadRound(f);
      if !ok1 { return; }
      t := t1;
      if address0 != address1 || seqlock0 != seqlock1 || seqlock0 % 2 == 1 {
        race := true;
        return;
      }
      ok, uid := true, Uid(address1, seqlock1);
      if uid.address != 0 {
        Sandwiched(p.hist, t0, t, uid);
      }
    }

    /** Checks at the last moment of the history that the incarnation is still there. */
    method CheckSeqlock(uid: Uid) returns (ok: bool, race: bool)
      requires p.Ok()
      modifies p
      ensures p.Ok() && old(p.hist) <= p.hist
      ensures race ==> !ok
      ensures ok ==> Peek(p.w, Seqlock(uid.address)) == Some(uid.seqlock)
      ensures old(p.failures) <= p.failures
      ensures race || (!ok && p.failures == old(p.failures)) ==> Peek(p.w, Seqlock(uid.address)) != Some(uid.seqlock)
    {
      var seen := p.Read(Seqlock(uid.address));
      ok := seen == Some(uid.seqlock);
      race := seen.Some? && !ok;
    }

    /** Reads the address and the size of a symfile, one after the other. */
    method ReadEntry(uid: Uid, ghost t0: nat) returns (sym: Option<Symfile>, ghost t1: nat, ghost t2: nat)
      requires p.Ok() && t0 < |p.hist|
      modifies p
      ensures p.Ok() && old(p.hist) <= p.hist && old(p.failures) <= p.failures
      ensures sym.Some? ==> t0 <= t1 <= t2 < |p.hist| && Peek(p.hist[t1], SymAddr(uid.address)) == Some(sym.value.addr)
                            && Peek(p.hist[t2], SymSize(uid.address)) == Some(sym.value.size)
      ensures |p.hist| == t0 + 1 && p.failures == old(p.failures) && Linked(p.hist[t0], uid) ==> sym.Some?
    {
      hide History;
      t1, t2 := 0, 0;
      var addr := p.Read(SymAddr(uid.address));
      t1 := |p.hist| - 1;
      if addr.None? { return None, 0, 0; }
      var size := p.Read(SymSize(uid.address));
      t2 := |p.hist| - 1;
      if size.None? { return None, 0, 0; }
      return Some(Symfile(addr.value, size.value)), t1, t2;
    }

    /** Reads the symfile of a listed entry and caches it, unless there is none or it does not load. */
    method ReadSymfile(uid: Uid, es: map<Uid, Symfile>, ghost t0: nat)
      returns (ok: bool, race: bool, es': map<Uid, Symfile>)
      requires Ok() && t0 < |p.hist| && Linked(p.hist[t0], uid)
      modifies p
      ensures p.Ok() && old(p.hist) <= p.hist
      ensures race ==> !ok
      ensures ok && uid in es' && uid !in es ==>
                uid in p.w.syms && es' == es[uid := p.w.syms[uid]] && p.w.syms[uid].addr != 0
      ensures ok && uid in entries_ && uid !in es ==> uid in es'
      ensures ok && uid !in es' ==> es' == es
      ensures old(p.failures) <= p.failures
      ensures ok && p.failures == old(p.failures) ==> uid in es' || (uid in p.w.syms && p.w.syms[uid].addr == 0)
      ensures |p.hist| == t0 + 1 && p.failures == old(p.failures) ==> ok
    {
      hide Evolves, Inv, History;
      es' := es;
      var sym;
      ghost var t1, t2;
      sym, t1, t2 := ReadEntry(uid, t0);
      if sym.None? { return false, false, es; }
      ok, race := CheckSeqlock(uid);
      if !ok { return; }
      if uid in entries_ {
        Remember(old(p.w));
        es' := es[uid := entries_[uid]];
      } else if sym.value.addr != 0 {
        var loads: bool :| true;
        ok, race := CheckSeqlock(uid);
        if !ok { return; }
        if loads {
          SymfileRead(p.hist, t0, t1, t2, uid, sym.value);
          es' := es[uid := sym.value];
        } else {
          p.failures := p.failures + 1;
        }
      } else {
        SymfileRead(p.hist, t0, t1, t2, uid, sym.value);
      }
    }

    /** What was cached before the process ran on still fits. */
    lemma Remember(w0: World)
      requires p.Ok() && w0 in p.hist && Fits(w0, entries_)
      ensures Fits(p.w, entries_)
    {
      var i :| 0 <= i < |p.hist| && p.hist[i] == w0;
      FitsLater(p.hist, i, entries_);
    }

    /**
     Handles one entry that was listed at moment `t0` and finds its successor;
     `t` is the moment at which the successor was read.
     */
    method Visit(uid: Uid, es: map<Uid, Symfile>, ghost t0: nat)
      returns (ok: bool, race: bool, es': map<Uid, Symfile>, next: Uid, ghost t: nat)
      requires Ok() && t0 < |p.hist| && Linked(p.hist[t0], uid) && uid !in es
      modifies p
      ensures p.Ok() && old(p.hist) <= p.hist
      ensures race ==> !ok
      ensures ok ==> old(|p.hist|) - 1 <= t < |p.hist| && uid in p.w.syms
      ensures ok ==> es' == es || (es' == es[uid := p.w.syms[uid]] && p.w.syms[uid].addr != 0)
      ensures ok && uid in entries_ ==> uid in es'
      ensures ok ==> Successor(p.hist[t], uid, next)
      ensures old(p.failures) <= p.failures
      ensures ok && p.failures == old(p.failures) ==> uid in es' || p.w.syms[uid].addr == 0
      ensures |p.hist| == t0 + 1 && p.failures == old(p.failures) ==> ok
    {
      next, t := Uid(0, 0), 0;
      ok, race, es' := ReadSymfile(uid, es, t0);
      if !ok { return; }
      ghost var w1 := p.w;
      ok, next, race, t := ReadNextField(Next(uid.address));
      if !ok {
        LinksAreValidNow(p.hist, uid);
        return;
      }
      ok, race := CheckSeqlock(uid);
      if !ok { return; }
      NextRead(p.hist, t0, t, uid, next);
      StillThere(p.hist, t0, w1, uid);
    }

    /** Follows the list from `first`, which was at the head at moment `top`, up to `last`. */
    method Walk(entries: map<Uid, Symfile>, ghost seen0: set<Uid>, first: Uid, ghost top: nat, ghost b: nat)
      returns (ok: bool, race: bool, es: map<Uid, Symfile>, ghost seen: set<Uid>, ghost last: Uid, ghost t: nat)
      requires p.Ok() && first.address != 0
      requires AtEntry(p.hist, top, top, entries_, entries, entries, seen0, b, first)
      modifies p
      ensures p.Ok() && old(p.hist) <= p.hist
      ensures race ==> !ok
      ensures ok ==> AtEntry(p.hist, top, t, entries_, entries, es, seen, b, last)
      ensures ok ==> (last.address == 0 || last in es) && seen0 <= seen
      ensures ok ==> first in seen
      ensures old(p.failures) <= p.failures
      ensures ok && p.failures == old(p.failures) && Loaded(old(p.w), entries, seen0) ==> Loaded(p.w, es, seen)
      ensures |p.hist| == top + 1 && p.failures == old(p.failures) ==> ok
      ensures ok && p.hist == old(p.hist) && p.failures == old(p.failures) ==> WalkedIn(p.w, first, entries, es)
    {
      hide Loaded, Inv, Evolves, Fits, Linked, WalkedIn, AtEntry, History, Successor, WalkSoFar;
      es, seen, t := entries, seen0, top;
      WalkStarts(p.hist, top, entries_, entries, seen0, b, first);
      var uid := first;
      while uid.address != 0
        invariant p.Ok() && old(p.failures) <= p.failures
        invariant WalkSoFar(old(p.hist), p.hist, p.failures == old(p.failures), top, t, entries_, entries, es, seen0,
                            seen, b, first, uid)
        decreases if uid.address != 0 && uid in p.w.born then p.w.born[uid] + 1 else 0
      {
        ghost var h1, clean, es1 := p.hist, p.failures == old(p.failures), es;
        EntryIsListed(old(p.hist), p.hist, clean, top, t, entries_, entries, es, seen0, seen, b, first, uid);
        if uid in es {
          WalkStops(old(p.hist), p.hist, clean, top, t, entries_, entries, es, seen0, seen, b, first, uid);
          return true, false, es, seen, uid, t;
        }
        var next: Uid;
        ghost var t';
        last := uid;
        ok, race, es, next, t' := Visit(uid, es, t);
        if !ok { return; }
        WalkGoesOn(old(p.hist), h1, p.hist, clean, p.failures == old(p.failures), top, t, entries_, entries, es1, es,
                   seen0, seen, b, first, uid, t', next);
        seen := seen + {uid};
        uid, t := next, t';
      }
      WalkStops(old(p.hist), p.hist, p.failures == old(p.failures), top, t, entries_, entries, es, seen0, seen, b,
                first, uid);
      ok, race, last := true, false, uid;
    }

    /** Walks from the head, read at moment `top`, to the first cached entry or the end. */
    method ReadNewEntries(entries: map<Uid, Symfile>, ghost seen0: set<Uid>)
      returns (ok: bool, race: bool, es: map<Uid, Symfile>, ghost seen: set<Uid>, ghost top: nat)
      requires Ok() && Fits(p.w, entries) && Closed(p.w, entries, seen0) && entries.Keys <= seen0
      modifies p
      ensures p.Ok() && old(p.hist) <= p.hist
      ensures race ==> !ok
      ensures ok ==> PassDone(p.hist, old(|p.hist|) - 1, top, entries, es, seen)
      ensures old(p.failures) <= p.failures
      ensures ok && p.failures == old(p.failures) && Loaded(old(p.w), entries, seen0) ==> Loaded(p.w, es, seen)
      ensures p.hist == old(p.hist) && p.failures == old(p.failures) ==> ok
      ensures ok && p.failures == old(p.failures) && Loaded(old(p.w), entries, seen0) && es.Keys == entries.Keys ==>
                Complete(p.hist, top, es)
    {
      hide Loaded, Closed, SeenSince, PassDone, Inv, Evolves, Complete, History, Fits, AtEntry, Valid;
      es, seen := entries, seen0;
      ghost var start := |p.hist| - 1;
      var uid;
      ok, uid, race, top := ReadNextField(Head);
      if !ok {
        LinksAreValidNow(p.hist, uid);
        return;
      }
      if Loaded(old(p.w), entries, seen) { LoadedLater(p.hist, start, entries, seen); }
      if uid.address == 0 {
        PassFindsNothing(p.hist, start, top, entries, seen);
        if Loaded(p.w, entries, seen) { PassIsComplete(p.hist, start, top, entries, entries, seen); }
        return;
      }
      PassBegins(p.hist, start, top, entries_, entries, seen, uid);
      ghost var h0 := p.hist;
      ghost var last, t;
      ok, race, es, seen, last, t := Walk(entries, seen, uid, top, p.w.born[uid]);
      if !ok { return; }
      PassEnds(h0, p.hist, start, top, t, entries_, entries, es, seen0, seen, uid, last);
      if Loaded(p.w, es, seen) && es.Keys == entries.Keys { PassIsComplete(p.hist, start, top, entries, es, seen); }
    }

    /** Reads new entries until a pass finds none; `top` is the moment of the last read of the head. */
    method TryReadAllEntries() returns (ok: bool, race: bool, ghost seen: set<Uid>, ghost top: nat)
      requires Ok()
      modifies this, p
      ensures Ok() && old(p.hist) <= p.hist
      ensures ok ==> Snapshot(p.hist, old(|p.hist|) - 1, top, entries_, seen)
      ensures !ok ==> entries_ == old(entries_)
      ensures old(p.failures) <= p.failures
      ensures ok && p.failures == old(p.failures) ==> Loaded(p.w, entries_, seen) && Complete(p.hist, top, entries_)
      ensures p.hist == old(p.hist) && p.failures == old(p.failures) ==> ok
    {
      hide Loaded, Whole, Closed, SeenSince, Fits, Linked, Inv, Evolves, History, Snapshot, Complete, PassDone;
      var entries: map<Uid, Symfile> := map[];
      ghost var start := |p.hist| - 1;
      ok, race, seen, top := false, false, {}, 0;
      NothingYet(p.hist, start);
      for i := 0 to MAX_HEAD_RETRIES
        invariant Ok() && old(p.hist) <= p.hist && entries_ == old(entries_) && old(p.failures) <= p.failures
        invariant Collecting(p.hist, start, entries, seen)
        invariant p.failures == old(p.failures) ==> Loaded(p.w, entries, seen)
        invariant p.hist == old(p.hist) && p.failures == old(p.failures) && i > 0 ==> i == 1 && Whole(p.w, entries)
      {
        ghost var h0 := p.hist;
        var es;
        ok, race, es, seen, top := ReadNewEntries(entries, seen);
        FitsLater(p.hist, |h0| - 1, entries_);
        if !ok { return; }
        PassCollects(h0, p.hist, start, top, entries, es, seen);
        if p.hist == old(p.hist) && p.failures == old(p.failures) { QuietPass(p.hist, top, entries, es, seen); }
        if |es| == |entries| {
          entries_ := es;
          return;
        }
        entries := es;
      }
      ok := false;
    }

    /** Retries while there are races. */
    method ReadAllEntries() returns (ok: bool, ghost seen: set<Uid>, ghost top: nat)
      requires Ok()
      modifies this, p
      ensures Ok() && old(p.hist) <= p.hist
      ensures ok ==> Snapshot(p.hist, old(|p.hist|) - 1, top, entries_, seen)
      ensures !ok ==> entries_ == old(entries_)
      ensures old(p.failures) <= p.failures
      ensures ok && p.failures == old(p.failures) ==> Loaded(p.w, entries_, seen) && Complete(p.hist, top, entries_)
      ensures p.hist == old(p.hist) && p.failures == old(p.failures) ==> ok
    {
      ok, seen, top := false, {}, 0;
      for i := 0 to MAX_RACE_RETRIES
        invariant Ok() && old(p.hist) <= p.hist && entries_ == old(entries_) && old(p.failures) <= p.failures
        invariant p.hist == old(p.hist) && p.failures == old(p.failures) ==> i == 0
      {
        var race;
        ghost var i0 := |p.hist| - 1;
        ok, race, seen, top := TryReadAllEntries();
        if ok {
          SeenEarlier(p.hist, old(|p.hist|) - 1, i0, entries_.Keys);
          return;
        }
        if !race { return; }
      }
    }

    /**
     Finds a cached symfile for which `wanted` holds, rereading the list if there
     is none.  `reread` says whether the list was reread with success, `top` is
     the moment of the last read of the head, and `failures` is what had failed
     before the reread.
     */
    method ForEachSymfile(wanted: Symfile -> bool)
      returns (found: bool, uid: Uid, ghost reread: bool, ghost top: nat, ghost failures: nat)
      requires Ok()
      modifies this, p
      ensures Ok() && old(p.hist) <= p.hist
      ensures found ==> uid in entries_ && wanted(entries_[uid]) && uid in p.w.syms && p.w.syms[uid] == entries_[uid]
      ensures found ==> WasListed(p.hist, old(|p.hist|) - 1, uid) ||
                        (exists t :: old(|p.hist|) - 1 <= t < |p.hist| &&
                                     Peek(p.hist[t], Seqlock(uid.address)) == Some(uid.seqlock)) ||
                        (!reread && uid in old(entries_))
      ensures !found ==> forall u :: u in entries_ ==> !wanted(entries_[u])
      ensures old(p.failures) <= p.failures
      ensures !found && p.hist == old(p.hist) && p.failures == old(p.failures) ==> reread && Whole(p.w, entries_)
      ensures old(p.failures) <= failures <= p.failures
      ensures !found && reread && p.failures == failures ==> old(|p.hist|) - 1 <= top && Complete(p.hist, top, entries_)
    {
      hide Loaded, Whole, Closed, Linked, Inv, Evolves, History, Complete;
      reread, top := false, 0;
      found, uid := FindLive(wanted);
      failures := p.failures;
      if found { return; }
      var ok;
      ghost var seen;
      ok, seen, top := ReadAllEntries();
      reread := ok;
      if ok && p.hist == old(p.hist) && p.failures == old(p.failures) { SnapshotIsWhole(p.hist, top, entries_, seen); }
      found, uid := FindCached(wanted);
    }

    /** A cached symfile that is wanted and whose entry still has its seqlock. */
    method FindLive(wanted: Symfile -> bool) returns (found: bool, uid: Uid)
      requires Ok()
      modifies p
      ensures Ok() && old(p.hist) <= p.hist && old(p.failures) <= p.failures
      ensures found ==> uid in entries_ && wanted(entries_[uid]) && Peek(p.w, Seqlock(uid.address)) == Some(uid.seqlock)
      ensures !found && p.failures == old(p.failures) && p.hist == old(p.hist) ==>
                forall u :: u in entries_ && wanted(entries_[u]) ==> Peek(p.w, Seqlock(u.address)) != Some(u.seqlock)
    {
      hide Fits, Inv, Evolves, History;
      found, uid := false, Uid(0, 0);
      var todo := entries_.Keys;
      while todo != {}
        invariant Ok() && old(p.hist) <= p.hist && todo <= entries_.Keys && old(p.failures) <= p.failures
        invariant p.failures == old(p.failures) && p.hist == old(p.hist) ==>
                    forall u :: u in entries_ && u !in todo && wanted(entries_[u]) ==>
                      Peek(p.w, Seqlock(u.address)) != Some(u.seqlock)
      {
        var u :| u in todo;
        todo := todo - {u};
        if wanted(entries_[u]) {
          ghost var i0 := |p.hist| - 1;
          var live, _ := CheckSeqlock(u);
          FitsLater(p.hist, i0, entries_);
          if live { return true, u; }
        }
      }
    }

    /** A cached symfile that is wanted. */
    method FindCached(wanted: Symfile -> bool) returns (found: bool, uid: Uid)
      ensures found ==> uid in entries_ && wanted(entries_[uid])
      ensures !found ==> forall u :: u in entries_ ==> !wanted(entries_[u])
    {
      found, uid := false, Uid(0, 0);
      var todo := entries_.Keys;
      while todo != {}
        invariant todo <= entries_.Keys
        invariant forall u :: u in entries_ && u !in todo ==> !wanted(entries_[u])
      {
        var u :| u in todo;
        todo := todo - {u};
        if wanted(entries_[u]) { return true, u; }
      }
    }
  }
}
